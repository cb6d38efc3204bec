/** In every interleaving the lists of the skiplist stay sorted and nested, no assertion of Put
    fails, and the base list is the ordered map of the Puts in the order they took effect. */
module SkiplistSafety {
  import opened Keys
  import opened Skiplist
  import opened Wrappers

  // ---------- What a writer knows ----------

  ghost predicate SpliceOk(l: List, i: nat, key: InternalKey, before: Ref, after: Ref) {
    && OnLevel(l, i, before) && Below(l, before, key)
    && (after == NIL || (OnLevel(l, i, after) && Above(l, after, key)))
  }

  ghost predicate SplicesOk(l: List, w: Writer) {
    && |w.prev| == MAX_HEIGHT + 1 && |w.next| == MAX_HEIGHT + 1
    && forall i | 0 <= i < MAX_HEIGHT && w.prev[i].Some? :: SpliceOk(l, i, w.key, w.prev[i].value, w.next[i])
  }

  predicate Owning(w: Writer) {
    w.at.Measure? || w.at.Raise? || w.at.Link? || w.at.Find? || w.at.Store? || w.at.Swap? || w.at.Retry?
  }

  /** The new node is linked on the levels below i and nowhere else. */
  ghost predicate Owned(l: List, w: Writer, i: nat) {
    && 0 < w.x < |l.nodes| && l.nodes[w.x].key == w.key
    && 1 <= |l.nodes[w.x].tower| <= MAX_HEIGHT && i <= |l.nodes[w.x].tower|
    && (i == 0 ==> l.nodes[w.x].value == w.value)
    && forall j | 0 <= j < |l.linked| :: w.x in l.linked[j] <==> j < i
  }

  ghost predicate Prepared(w: Writer, from: nat) {
    1 <= w.top <= MAX_HEIGHT && w.top < |w.prev| && forall j | from <= j <= w.top :: w.prev[j].Some?
  }

  ghost predicate HasKey(l: List, key: InternalKey) {
    exists n :: OnLevel(l, 0, n) && n != HEAD && l.nodes[n].key == key
  }

  ghost predicate PlaceOk(l: List, w: Writer) {
    match w.at
    case Start => true
    case Search(i, b) => i < w.top && Prepared(w, i + 1) && OnLevel(l, i, b) && Below(l, b, w.key)
    case Overwrite(n) => OnLevel(l, 0, n) && n != HEAD && l.nodes[n].key == w.key
    case Allocate => Prepared(w, 0)
    case Measure => Prepared(w, 0) && Owned(l, w, 0)
    case Raise(_) => Prepared(w, 0) && Owned(l, w, 0)
    case Link(i) => Prepared(w, 0) && Owned(l, w, i)
    case Find(i, b) =>
      Prepared(w, 0) && Owned(l, w, i) && 1 < i < |l.nodes[w.x].tower| && OnLevel(l, i, b) && Below(l, b, w.key)
    case Store(i) => Prepared(w, 0) && Owned(l, w, i) && i < |l.nodes[w.x].tower| && i < |w.prev| && w.prev[i].Some?
    case Swap(i) =>
      Prepared(w, 0) && Owned(l, w, i) && i < |l.nodes[w.x].tower| && i < |w.prev| && w.prev[i].Some?
      && i < |w.next| && l.nodes[w.x].tower[i] == w.next[i]
    case Retry(i, b) =>
      Prepared(w, 0) && Owned(l, w, i) && i < |l.nodes[w.x].tower| && OnLevel(l, i, b) && Below(l, b, w.key)
    case Done => HasKey(l, w.key)
    case Crash => false
  }

  ghost predicate WriterOk(l: List, w: Writer) {
    SplicesOk(l, w) && PlaceOk(l, w)
  }

  // ---------- What a step may change ----------

  /** Nodes keep their key and height, nothing is unlinked, and only `x` may be newly linked or
      have its unlinked pointers changed. */
  ghost predicate Grows(l: List, m: List, x: Ref) {
    && |l.nodes| <= |m.nodes| && |l.linked| == |m.linked|
    && (forall n | 0 <= n < |l.nodes| :: m.nodes[n].key == l.nodes[n].key && |m.nodes[n].tower| == |l.nodes[n].tower|)
    && (forall i, n | 0 <= i < |l.linked| && n in l.linked[i] :: n in m.linked[i])
    && (forall i, n | 0 <= i < |l.linked| && 0 <= n < |l.nodes| && n != x && n in m.linked[i] :: n in l.linked[i])
    && (forall i, n | 0 <= i < |l.linked| && 0 <= n < |l.nodes| && n != x && n !in l.linked[i] && i < |l.nodes[n].tower| ::
          m.nodes[n].tower[i] == l.nodes[n].tower[i])
    && (forall n | 0 <= n < |l.nodes| && n != x && |l.linked| > 0 && n !in l.linked[0] :: m.nodes[n].value == l.nodes[n].value)
  }

  lemma LevelsGrow(l: List, m: List, x: Ref)
    requires Grows(l, m, x)
    ensures forall i, n :: OnLevel(l, i, n) ==> OnLevel(m, i, n)
  {
  }

  lemma OwnedStays(l: List, m: List, x: Ref, w: Writer, i: nat)
    requires Shape(l) && Grows(l, m, x) && w.x != x && Owned(l, w, i)
    ensures Owned(m, w, i)
  {
  }

  /** A step by the owner of `x` does not disturb what another writer knows. */
  lemma OtherStays(l: List, m: List, x: Ref, w: Writer)
    requires Shape(l) && Grows(l, m, x) && (Owning(w) ==> w.x != x) && WriterOk(l, w)
    ensures WriterOk(m, w)
  {
    hide PointsToSuccessor;
    LevelsGrow(l, m, x);
    assert SplicesOk(m, w);
    match w.at
    case Measure => OwnedStays(l, m, x, w, 0);
    case Raise(_) => OwnedStays(l, m, x, w, 0);
    case Link(i) => OwnedStays(l, m, x, w, i);
    case Find(i, _) => OwnedStays(l, m, x, w, i);
    case Store(i) => OwnedStays(l, m, x, w, i);
    case Swap(i) => OwnedStays(l, m, x, w, i);
    case Retry(i, _) => OwnedStays(l, m, x, w, i);
    case Done =>
      var n :| OnLevel(l, 0, n) && n != HEAD && l.nodes[n].key == w.key;
      assert OnLevel(m, 0, n);
    case _ =>
  }

  // ---------- Linking a node ----------

  /** `x` goes between `p` and its successor `a` on level i. */
  ghost predicate Fits(l: List, i: nat, p: Ref, x: Ref, a: Ref) {
    && 0 < x < |l.nodes| && i < |l.nodes[x].tower| && l.nodes[x].tower[i] == a
    && SpliceOk(l, i, l.nodes[x].key, p, a) && Next(l, i, p) == a
    && i < |l.linked| && forall j | 0 <= j < |l.linked| :: x in l.linked[j] <==> j < i
  }

  function Linked(l: List, i: nat, p: Ref, x: Ref): List
    requires OnLevel(l, i, p)
  {
    var node := l.nodes[p];
    SetNode(l, p, node.(tower := node.tower[i := x])).(linked := l.linked[i := l.linked[i] + {x}])
  }

  lemma NotBetween(l: List, i: nat, p: Ref, x: Ref, a: Ref, o: Ref)
    requires ListOk(l) && Fits(l, i, p, x, a) && OnLevel(l, i, o) && o != HEAD && Below(l, p, l.nodes[o].key)
    ensures a != NIL && !Before(l.nodes[o].key, l.nodes[a].key) && Before(l.nodes[x].key, l.nodes[o].key)
  {
    assert PointsToSuccessor(l, i, p);
  }

  /** Everything on the level is p, at or before p, or after x. */
  lemma Sides(l: List, i: nat, p: Ref, x: Ref, a: Ref, n: Ref)
    requires ListOk(l) && Fits(l, i, p, x, a) && OnLevel(l, i, n) && n != HEAD && n != p
    ensures (p != HEAD && Before(l.nodes[n].key, l.nodes[p].key)) || Before(l.nodes[x].key, l.nodes[n].key)
    ensures l.nodes[n].key != l.nodes[x].key
  {
    if Below(l, p, l.nodes[n].key) {
      NotBetween(l, i, p, x, a, n);
    } else {
      assert OnLevel(l, 0, p) && OnLevel(l, 0, n);
    }
  }

  lemma LinkKeepsLevel(l: List, i: nat, p: Ref, x: Ref, a: Ref, n: Ref)
    requires ListOk(l) && Fits(l, i, p, x, a) && OnLevel(Linked(l, i, p, x), i, n)
    ensures PointsToSuccessor(Linked(l, i, p, x), i, n)
  {
    var m := Linked(l, i, p, x);
    if n != x {
      assert OnLevel(l, i, n) && PointsToSuccessor(l, i, n);
    }
    forall o | OnLevel(m, i, o) && o != HEAD && Below(m, n, m.nodes[o].key)
      ensures var s := Next(m, i, n); s != NIL && (s == o || (OnLevel(m, i, s) && Before(m.nodes[s].key, m.nodes[o].key)))
    {
      if o != x {
        assert OnLevel(l, i, o);
        if n == p || n == x {
          NotBetween(l, i, p, x, a, o);
        }
      } else if n != p {
        if n != HEAD {
          Sides(l, i, p, x, a, n);
        }
        assert OnLevel(l, i, p) && p != HEAD && Below(l, n, l.nodes[p].key);
      }
    }
  }

  lemma LinkedLevels(l: List, i: nat, p: Ref, x: Ref, a: Ref)
    requires Shape(l) && Fits(l, i, p, x, a)
    ensures Shape(Linked(l, i, p, x))
    ensures forall j, n :: OnLevel(Linked(l, i, p, x), j, n) <==> OnLevel(l, j, n) || (j == i && n == x)
  {
    assert forall j | 0 <= j < MAX_HEIGHT :: OnLevel(l, j, HEAD);
    forall j, n | OnLevel(l, j, n) ensures OnLevel(Linked(l, i, p, x), j, n) {
    }
  }

  lemma LinkKeepsNested(l: List, m: List, i: nat, p: Ref, x: Ref, a: Ref)
    requires ListOk(l) && Fits(l, i, p, x, a) && m == Linked(l, i, p, x)
    ensures forall j, k, n | 0 <= j <= k < MAX_HEIGHT && OnLevel(m, k, n) :: OnLevel(m, j, n)
  {
    LinkedLevels(l, i, p, x, a);
    forall j, k, n | 0 <= j <= k < MAX_HEIGHT && OnLevel(m, k, n) ensures OnLevel(m, j, n) {
      if n == x && k == i {
        assert j < i ==> x in l.linked[j];
      } else {
        assert OnLevel(l, k, n) && OnLevel(l, j, n);
      }
    }
  }

  lemma NewKey(l: List, i: nat, p: Ref, x: Ref, a: Ref, n: Ref)
    requires ListOk(l) && Fits(l, i, p, x, a) && OnLevel(l, i, n) && n != HEAD
    ensures l.nodes[n].key != l.nodes[x].key
  {
    if n != p {
      Sides(l, i, p, x, a, n);
    }
  }

  lemma LinkKeepsKeys(l: List, m: List, i: nat, p: Ref, x: Ref, a: Ref, c: Ref, d: Ref)
    requires ListOk(l) && Fits(l, i, p, x, a) && m == Linked(l, i, p, x)
    requires OnLevel(m, 0, c) && OnLevel(m, 0, d) && c != HEAD && d != HEAD && m.nodes[c].key == m.nodes[d].key
    ensures c == d
  {
    LinkedLevels(l, i, p, x, a);
    if i == 0 && OnLevel(l, 0, c) {
      NewKey(l, i, p, x, a, c);
    }
    if i == 0 && OnLevel(l, 0, d) {
      NewKey(l, i, p, x, a, d);
    }
  }

  lemma OtherLevel(l: List, m: List, i: nat, p: Ref, x: Ref, a: Ref, j: nat, n: Ref)
    requires ListOk(l) && Fits(l, i, p, x, a) && m == Linked(l, i, p, x)
    requires j != i && j < MAX_HEIGHT && OnLevel(m, j, n)
    ensures PointsToSuccessor(m, j, n)
  {
    assert OnLevel(l, j, n) && PointsToSuccessor(l, j, n);
    assert Next(m, j, n) == Next(l, j, n);
    assert forall o :: OnLevel(m, j, o) <==> OnLevel(l, j, o);
  }

  lemma LinkKeepsList(l: List, i: nat, p: Ref, x: Ref, a: Ref)
    requires ListOk(l) && Fits(l, i, p, x, a)
    ensures ListOk(Linked(l, i, p, x))
  {
    var m := Linked(l, i, p, x);
    LinkedLevels(l, i, p, x, a);
    LinkKeepsNested(l, m, i, p, x, a);
    forall c, d | OnLevel(m, 0, c) && OnLevel(m, 0, d) && c != HEAD && d != HEAD && m.nodes[c].key == m.nodes[d].key
      ensures c == d
    {
      LinkKeepsKeys(l, m, i, p, x, a, c, d);
    }
    forall j, n | 0 <= j < MAX_HEIGHT && OnLevel(m, j, n) ensures PointsToSuccessor(m, j, n) {
      if j == i {
        LinkKeepsLevel(l, i, p, x, a, n);
      } else {
        OtherLevel(l, m, i, p, x, a, j, n);
      }
    }
  }

  // ---------- Steps that link nothing ----------

  /** The linked nodes are the same and point to the same nodes. */
  ghost predicate SameLinks(l: List, m: List) {
    && m.linked == l.linked && |l.nodes| <= |m.nodes| && 1 <= m.height <= MAX_HEIGHT
    && (forall n | 0 <= n < |l.nodes| :: m.nodes[n].key == l.nodes[n].key && |m.nodes[n].tower| == |l.nodes[n].tower|)
    && forall i: nat, n | OnLevel(l, i, n) :: m.nodes[n].tower[i] == l.nodes[n].tower[i]
  }

  lemma SameLinksKeep(l: List, m: List)
    requires ListOk(l) && SameLinks(l, m)
    ensures ListOk(m)
  {
    assert forall j | 0 <= j < MAX_HEIGHT :: OnLevel(l, j, HEAD);
    assert forall i, n | 0 <= i < MAX_HEIGHT && n in l.linked[i] :: OnLevel(l, i, n);
    assert forall i, n :: OnLevel(m, i, n) <==> OnLevel(l, i, n);
    forall i, n | 0 <= i < MAX_HEIGHT && OnLevel(m, i, n) ensures PointsToSuccessor(m, i, n) {
      assert OnLevel(l, i, n) && PointsToSuccessor(l, i, n);
    }
  }

  // ---------- The map ----------

  lemma ContentsNode(l: List, n: Ref)
    requires ListOk(l) && OnLevel(l, 0, n) && n != HEAD
    ensures l.nodes[n].key in Contents(l) && Contents(l)[l.nodes[n].key] == l.nodes[n].value
  {
    assert n in l.linked[0];
  }

  lemma ContentsKey(l: List, k: InternalKey) returns (n: Ref)
    requires ListOk(l) && k in Contents(l)
    ensures OnLevel(l, 0, n) && n != HEAD && l.nodes[n].key == k && l.nodes[n].value == Contents(l)[k]
  {
    n :| n in l.linked[0] && n != HEAD && l.nodes[n].key == k;
    ContentsNode(l, n);
  }

  lemma SameContents(l: List, m: List)
    requires ListOk(l) && ListOk(m) && m.linked[0] == l.linked[0]
    requires forall n | OnLevel(l, 0, n) :: OnLevel(m, 0, n) && m.nodes[n].key == l.nodes[n].key && m.nodes[n].value == l.nodes[n].value
    ensures Contents(m) == Contents(l)
  {
    forall k | k in Contents(m) ensures k in Contents(l) && Contents(l)[k] == Contents(m)[k] {
      var n := ContentsKey(m, k);
      ContentsNode(l, n);
    }
    forall k | k in Contents(l) ensures k in Contents(m) {
      var n := ContentsKey(l, k);
      ContentsNode(m, n);
    }
  }

  lemma PutContents(l: List, m: List, x: Ref)
    requires ListOk(l) && ListOk(m) && m.linked[0] == l.linked[0] + {x} && x != HEAD
    requires OnLevel(m, 0, x)
    requires forall n | OnLevel(l, 0, n) :: OnLevel(m, 0, n) && m.nodes[n].key == l.nodes[n].key
    requires forall n | OnLevel(l, 0, n) && n != x :: m.nodes[n].value == l.nodes[n].value
    ensures Contents(m) == Contents(l)[m.nodes[x].key := m.nodes[x].value]
  {
    hide PointsToSuccessor, Sorted, Contents;
    var put := Contents(l)[m.nodes[x].key := m.nodes[x].value];
    ContentsNode(m, x);
    forall k | k in Contents(m) ensures k in put && put[k] == Contents(m)[k] {
      var n := ContentsKey(m, k);
      if n != x {
        ContentsNode(l, n);
        assert OnLevel(m, 0, n) && OnLevel(m, 0, x);
      }
    }
    forall k | k in put ensures k in Contents(m) {
      if k != m.nodes[x].key {
        var n := ContentsKey(l, k);
        ContentsNode(m, n);
      }
    }
  }

  // ---------- One step ----------

  function Private(w: Writer): Ref {
    if Owning(w) then w.x else NIL
  }

  /** What a step of `w` to (m, v) must establish. */
  ghost predicate StepOk(l: List, w: Writer, m: List, v: Writer) {
    && ListOk(l) && ListOk(m) && WriterOk(m, v) && Grows(l, m, Private(w))
    && v.key == w.key && v.value == w.value
    && (Owning(v) ==> (Owning(w) && v.x == w.x) || |l.nodes| <= v.x < |m.nodes|)
  }

  /** The step of `w` is possible, and either leaves the map alone or puts the writer's key. */
  ghost predicate Good(l: List, w: Writer, h: nat) {
    && 1 <= h <= MAX_HEIGHT && Safe(l, w)
    && var (m, v) := StepWriter(l, w, h);
       StepOk(l, w, m, v)
       && Contents(m) == if TakesEffect(l, w) then Contents(l)[w.key := w.value] else Contents(l)
  }

  /** After a look to the right from a node before the key. */
  lemma LookOk(l: List, i: nat, before: Ref, key: InternalKey)
    requires ListOk(l) && i < MAX_HEIGHT && OnLevel(l, i, before) && Below(l, before, key)
    ensures CanLook(l, i, before)
    ensures match LookRight(l, i, before, key)
            case Right(n) => OnLevel(l, i, n) && Below(l, n, key)
            case Same(n) => OnLevel(l, i, n) && OnLevel(l, 0, n) && n != HEAD && l.nodes[n].key == key
            case Splice(b, a) => SpliceOk(l, i, key, b, a) && b == before
  {
    assert PointsToSuccessor(l, i, before);
  }

  lemma RecordKeeps(l: List, w: Writer, i: nat, b: Ref, a: Ref, at: Place)
    requires SplicesOk(l, w) && i < MAX_HEIGHT && SpliceOk(l, i, w.key, b, a)
    ensures SplicesOk(l, Record(w, i, b, a).(at := at))
  {
  }

  /** A step that only moves the writer. */
  lemma QuietStep(l: List, w: Writer, v: Writer, h: nat)
    requires ListOk(l) && 1 <= h <= MAX_HEIGHT && Safe(l, w) && StepWriter(l, w, h) == (l, v) && !TakesEffect(l, w)
    requires WriterOk(l, v) && v.key == w.key && v.value == w.value
    requires Owning(v) ==> Owning(w) && v.x == w.x
    ensures Good(l, w, h)
  {
  }

  lemma StartKeeps(l: List, w: Writer, h: nat)
    requires ListOk(l) && WriterOk(l, w) && w.at.Start? && 1 <= h <= MAX_HEIGHT
    ensures Good(l, w, h)
  {
    assert forall i | 0 <= i < MAX_HEIGHT :: OnLevel(l, i, HEAD);
  }

  lemma SearchKeeps(l: List, w: Writer, h: nat)
    requires ListOk(l) && WriterOk(l, w) && w.at.Search? && 1 <= h <= MAX_HEIGHT
    ensures Good(l, w, h)
  {
    hide PointsToSuccessor, Sorted, Contents;
    var Search(i, before) := w.at;
    LookOk(l, i, before, w.key);
    match LookRight(l, i, before, w.key)
    case Splice(b, a) =>
      var place := if i == 0 then Allocate else Search(i - 1, b);
      RecordKeeps(l, w, i, b, a, place);
      assert i > 0 ==> OnLevel(l, i - 1, b);
      QuietStep(l, w, Record(w, i, b, a).(at := place), h);
    case Right(n) => QuietStep(l, w, w.(at := Search(i, n)), h);
    case Same(n) => QuietStep(l, w, w.(at := Overwrite(n)), h);
  }

  lemma OverwriteList(l: List, m: List, n: Ref, value: int)
    requires ListOk(l) && OnLevel(l, 0, n) && n != HEAD
    requires m == SetNode(l, n, l.nodes[n].(value := value))
    ensures ListOk(m) && Grows(l, m, NIL) && OnLevel(m, 0, n)
    ensures Contents(m) == Contents(l)[l.nodes[n].key := value]
  {
    SameLinksKeep(l, m);
    LevelsGrow(l, m, NIL);
    PutContents(l, m, n);
  }

  lemma OverwriteKeeps(l: List, w: Writer, h: nat)
    requires ListOk(l) && WriterOk(l, w) && w.at.Overwrite? && 1 <= h <= MAX_HEIGHT
    ensures Good(l, w, h)
  {
    hide PointsToSuccessor, Sorted, Nested, Contents;
    var (m, v) := StepWriter(l, w, h);
    OverwriteList(l, m, w.at.target, w.value);
    LevelsGrow(l, m, NIL);
    assert SplicesOk(m, v);
  }

  lemma AllocateList(l: List, m: List, node: Node)
    requires ListOk(l) && m == l.(nodes := l.nodes + [node])
    ensures ListOk(m) && Grows(l, m, NIL) && Contents(m) == Contents(l)
    ensures forall j | 0 <= j < |m.linked| :: |l.nodes| !in m.linked[j]
  {
    SameLinksKeep(l, m);
    LevelsGrow(l, m, NIL);
    forall j | 0 <= j < |m.linked| ensures |l.nodes| !in m.linked[j] {
      assert forall n | n in l.linked[j] :: OnLevel(l, j, n);
    }
    SameContents(l, m);
  }

  lemma AllocateKeeps(l: List, w: Writer, h: nat)
    requires ListOk(l) && WriterOk(l, w) && w.at.Allocate? && 1 <= h <= MAX_HEIGHT
    ensures Good(l, w, h)
  {
    var (m, v) := StepWriter(l, w, h);
    AllocateList(l, m, Node(w.key, w.value, seq(h, _ => NIL)));
    SplicesStay(l, m, NIL, w, v);
    assert Owned(m, v, 0);
  }

  lemma RaiseKeeps(l: List, w: Writer, h: nat)
    requires ListOk(l) && WriterOk(l, w) && (w.at.Measure? || w.at.Raise?) && 1 <= h <= MAX_HEIGHT
    ensures Good(l, w, h)
  {
    hide PointsToSuccessor, Sorted, Nested, Contents;
    var (m, v) := StepWriter(l, w, h);
    SameLinksKeep(l, m);
    LevelsGrow(l, m, w.x);
    assert SplicesOk(m, v);
    assert Owned(m, v, 0);
    SameContents(l, m);
  }

  lemma LinkStepKeeps(l: List, w: Writer, h: nat)
    requires ListOk(l) && WriterOk(l, w) && w.at.Link? && 1 <= h <= MAX_HEIGHT
    ensures Good(l, w, h)
  {
    hide PointsToSuccessor, Sorted, Nested, Contents;
    var i := w.at.level;
    if i == |l.nodes[w.x].tower| {
      assert OnLevel(l, 0, w.x);
      QuietStep(l, w, w.(at := Done), h);
    } else if w.prev[i].Some? {
      QuietStep(l, w, w.(at := Store(i)), h);
    } else {
      assert i > w.top && OnLevel(l, i, HEAD);
      QuietStep(l, w, w.(at := Find(i, HEAD)), h);
    }
  }

  /** The node itself is the only one with its key, and it is not on this level yet. */
  lemma NotSame(l: List, w: Writer, i: nat, n: Ref)
    requires ListOk(l) && Owned(l, w, i) && 0 < i < MAX_HEIGHT && OnLevel(l, i, n) && n != HEAD
    ensures l.nodes[n].key != w.key
  {
    assert OnLevel(l, 0, w.x) && OnLevel(l, 0, n);
  }

  lemma FindKeeps(l: List, w: Writer, h: nat)
    requires ListOk(l) && WriterOk(l, w) && w.at.Find? && 1 <= h <= MAX_HEIGHT
    ensures Good(l, w, h)
  {
    hide PointsToSuccessor, Sorted, Nested, Contents;
    var Find(i, before) := w.at;
    LookOk(l, i, before, w.key);
    match LookRight(l, i, before, w.key)
    case Splice(b, a) =>
      RecordKeeps(l, w, i, b, a, Store(i));
      QuietStep(l, w, Record(w, i, b, a).(at := Store(i)), h);
    case Same(n) => NotSame(l, w, i, n);
    case Right(n) => QuietStep(l, w, w.(at := Find(i, n)), h);
  }

  lemma RetryKeeps(l: List, w: Writer, h: nat)
    requires ListOk(l) && WriterOk(l, w) && w.at.Retry? && 1 <= h <= MAX_HEIGHT
    ensures Good(l, w, h)
  {
    hide PointsToSuccessor, Sorted, Nested, Contents;
    var Retry(i, before) := w.at;
    LookOk(l, i, before, w.key);
    match LookRight(l, i, before, w.key)
    case Splice(b, a) =>
      RecordKeeps(l, w, i, b, a, Store(i));
      QuietStep(l, w, Record(w, i, b, a).(at := Store(i)), h);
    case Same(n) =>
      if i > 0 {
        NotSame(l, w, i, n);
      } else {
        QuietStep(l, w, w.(at := Overwrite(n)), h);
      }
    case Right(n) => QuietStep(l, w, w.(at := Retry(i, n)), h);
  }

  lemma StoreList(l: List, m: List, x: Ref, i: nat, after: Ref)
    requires ListOk(l) && 0 < x < |l.nodes| && i < |l.nodes[x].tower| && i < MAX_HEIGHT && x !in l.linked[i]
    requires m == SetNode(l, x, l.nodes[x].(tower := l.nodes[x].tower[i := after]))
    ensures ListOk(m) && Grows(l, m, x) && Contents(m) == Contents(l)
  {
    SameLinksKeep(l, m);
    LevelsGrow(l, m, x);
    SameContents(l, m);
  }

  lemma StoreKeeps(l: List, w: Writer, h: nat)
    requires ListOk(l) && WriterOk(l, w) && w.at.Store? && 1 <= h <= MAX_HEIGHT
    ensures Good(l, w, h)
  {
    hide PointsToSuccessor, Sorted, Nested, Contents;
    var i, node := w.at.level, l.nodes[w.x];
    var m := SetNode(l, w.x, node.(tower := node.tower[i := w.next[i]]));
    StoreWriter(l, m, w, i);
    assert StepWriter(l, w, h) == (m, w.(at := Swap(i)));
  }

  lemma SplicesStay(l: List, m: List, x: Ref, w: Writer, v: Writer)
    requires Shape(l) && Grows(l, m, x) && SplicesOk(l, w)
    requires v.key == w.key && v.prev == w.prev && v.next == w.next
    ensures SplicesOk(m, v)
  {
    LevelsGrow(l, m, x);
  }

  lemma OwnedSame(l: List, m: List, w: Writer, v: Writer, i: nat)
    requires Owned(l, w, i) && m.linked == l.linked && |m.nodes| == |l.nodes|
    requires v.key == w.key && v.value == w.value && v.x == w.x
    requires m.nodes[w.x].key == l.nodes[w.x].key && m.nodes[w.x].value == l.nodes[w.x].value
    requires |m.nodes[w.x].tower| == |l.nodes[w.x].tower|
    ensures Owned(m, v, i)
  {
  }

  lemma StoreWriter(l: List, m: List, w: Writer, i: nat)
    requires ListOk(l) && WriterOk(l, w) && w.at == Store(i)
    requires m == SetNode(l, w.x, l.nodes[w.x].(tower := l.nodes[w.x].tower[i := w.next[i]]))
    ensures StepOk(l, w, m, w.(at := Swap(i))) && Contents(m) == Contents(l)
  {
    hide PointsToSuccessor, Sorted, Nested, Contents;
    StoreList(l, m, w.x, i, w.next[i]);
    SplicesStay(l, m, w.x, w, w.(at := Swap(i)));
    OwnedSame(l, m, w, w.(at := Swap(i)), i);
  }

  lemma SwapList(l: List, m: List, i: nat, p: Ref, x: Ref, a: Ref)
    requires ListOk(l) && Fits(l, i, p, x, a) && m == Linked(l, i, p, x)
    ensures ListOk(m) && Grows(l, m, x)
    ensures Contents(m) == if i == 0 then Contents(l)[l.nodes[x].key := l.nodes[x].value] else Contents(l)
  {
    LinkKeepsList(l, i, p, x, a);
    LinkedLevels(l, i, p, x, a);
    LinkGrows(l, m, i, p, x, a);
    if i == 0 {
      PutContents(l, m, x);
    } else {
      SameContents(l, m);
    }
  }

  lemma SwapKeeps(l: List, w: Writer, h: nat)
    requires ListOk(l) && WriterOk(l, w) && w.at.Swap? && 1 <= h <= MAX_HEIGHT
    ensures Good(l, w, h)
  {
    hide PointsToSuccessor, Sorted, Nested, Contents;
    var i := w.at.level;
    var p, a := w.prev[i].value, w.next[i];
    assert SpliceOk(l, i, w.key, p, a);
    if Next(l, i, p) == a {
      SwapWins(l, w, i, p, a, h);
    } else {
      QuietStep(l, w, w.(at := Retry(i, p)), h);
    }
  }

  lemma SwapWins(l: List, w: Writer, i: nat, p: Ref, a: Ref, h: nat)
    requires ListOk(l) && WriterOk(l, w) && w.at == Swap(i) && w.prev[i] == Some(p) && w.next[i] == a
    requires i < MAX_HEIGHT && SpliceOk(l, i, w.key, p, a) && Next(l, i, p) == a && 1 <= h <= MAX_HEIGHT
    ensures Good(l, w, h)
  {
    hide PointsToSuccessor, Sorted, Nested, Contents;
    var m, v := Linked(l, i, p, w.x), w.(at := Link(i + 1));
    assert Fits(l, i, p, w.x, a);
    SwapList(l, m, i, p, w.x, a);
    LevelsGrow(l, m, w.x);
    assert SplicesOk(m, v);
    assert Owned(m, v, i + 1);
    assert StepOk(l, w, m, v);
    assert StepWriter(l, w, h) == (m, v);
  }

  lemma LinkGrows(l: List, m: List, i: nat, p: Ref, x: Ref, a: Ref)
    requires ListOk(l) && Fits(l, i, p, x, a) && m == Linked(l, i, p, x)
    ensures Grows(l, m, x)
  {
  }

  /** No step fails an assertion or leaves the lists out of order. */
  lemma StepKeeps(l: List, w: Writer, h: nat)
    requires ListOk(l) && WriterOk(l, w) && 1 <= h <= MAX_HEIGHT
    ensures Good(l, w, h)
  {
    hide Sorted, Nested, Contents;
    match w.at
    case Start => StartKeeps(l, w, h);
    case Search(_, _) => SearchKeeps(l, w, h);
    case Overwrite(_) => OverwriteKeeps(l, w, h);
    case Allocate => AllocateKeeps(l, w, h);
    case Measure => RaiseKeeps(l, w, h);
    case Raise(_) => RaiseKeeps(l, w, h);
    case Link(_) => LinkStepKeeps(l, w, h);
    case Find(_, _) => FindKeeps(l, w, h);
    case Store(_) => StoreKeeps(l, w, h);
    case Swap(_) => SwapKeeps(l, w, h);
    case Retry(_, _) => RetryKeeps(l, w, h);
    case Done =>
    case Crash =>
  }

  // ---------- Runs ----------

  /** The Put is visible already. */
  predicate Applied(w: Writer) {
    w.at.Done? || ((w.at.Link? || w.at.Find? || w.at.Store? || w.at.Swap? || w.at.Retry?) && w.at.level > 0)
  }

  ghost predicate WritersOk(puts: seq<Put>, s: System) {
    && (forall id: nat :: id in s.writers <==> id < |puts|)
    && (forall id | id in s.writers :: WriterOk(s.list, s.writers[id]))
    && (forall id | id in s.writers :: s.writers[id].key == puts[id].key && s.writers[id].value == puts[id].value)
    && (forall a, b | a in s.writers && b in s.writers && a != b && Owning(s.writers[a]) && Owning(s.writers[b]) ::
          s.writers[a].x != s.writers[b].x)
  }

  ghost predicate LogOk(puts: seq<Put>, s: System) {
    && (forall i | 0 <= i < |s.log| :: s.log[i] < |puts|)
    && (forall i, j | 0 <= i < j < |s.log| :: s.log[i] != s.log[j])
    && (forall id | id in s.writers :: id in s.log <==> Applied(s.writers[id]))
  }

  ghost predicate SystemOk(puts: seq<Put>, s: System) {
    ListOk(s.list) && WritersOk(puts, s) && LogOk(puts, s) && Contents(s.list) == Replay(puts, s.log)
  }

  lemma AppliedOnce(l: List, w: Writer, h: nat)
    requires PlaceOk(l, w) && Safe(l, w) && 1 <= h <= MAX_HEIGHT && !StepWriter(l, w, h).1.at.Crash?
    ensures TakesEffect(l, w) ==> !Applied(w)
    ensures Applied(StepWriter(l, w, h).1) <==> Applied(w) || TakesEffect(l, w)
  {
  }

  lemma WritersKept(puts: seq<Put>, s: System, t: System, me: WriterId, m: List, v: Writer)
    requires WritersOk(puts, s) && me in s.writers && StepOk(s.list, s.writers[me], m, v)
    requires t.list == m && t.writers == s.writers[me := v]
    ensures WritersOk(puts, t)
  {
    hide PointsToSuccessor, Sorted, Nested, SplicesOk;
    var w := s.writers[me];
    forall id | id in s.writers && id != me ensures WriterOk(m, s.writers[id]) {
      assert WriterOk(s.list, s.writers[id]);
      PrivateIsOwn(s.list, w, s.writers[id]);
      OtherStays(s.list, m, Private(w), s.writers[id]);
    }
    forall id | id in s.writers && id != me && Owning(v) && Owning(s.writers[id]) ensures v.x != s.writers[id].x {
      assert WriterOk(s.list, s.writers[id]);
    }
  }

  lemma PrivateIsOwn(l: List, w: Writer, other: Writer)
    requires WriterOk(l, other) && (Owning(w) && Owning(other) ==> w.x != other.x)
    ensures Owning(other) ==> 0 < other.x < |l.nodes| && other.x != Private(w)
  {
  }

  lemma LogKept(puts: seq<Put>, s: System, t: System, me: WriterId, v: Writer, effect: bool)
    requires LogOk(puts, s) && me in s.writers && me < |puts| && t.writers == s.writers[me := v]
    requires effect ==> !Applied(s.writers[me])
    requires Applied(v) <==> Applied(s.writers[me]) || effect
    requires t.log == if effect then s.log + [me] else s.log
    ensures LogOk(puts, t)
    ensures Replay(puts, t.log) ==
            if effect then Replay(puts, s.log)[puts[me].key := puts[me].value] else Replay(puts, s.log)
  {
    if effect {
      assert t.log[..|s.log|] == s.log;
    }
  }

  lemma SystemKept(puts: seq<Put>, s: System, t: System, me: WriterId, v: Writer, effect: bool)
    requires SystemOk(puts, s) && me in s.writers && me < |puts| && StepOk(s.list, s.writers[me], t.list, v)
    requires t.writers == s.writers[me := v] && t.log == if effect then s.log + [me] else s.log
    requires Contents(t.list) == if effect then Contents(s.list)[v.key := v.value] else Contents(s.list)
    requires effect ==> !Applied(s.writers[me])
    requires Applied(v) <==> Applied(s.writers[me]) || effect
    ensures SystemOk(puts, t)
  {
    WritersKept(puts, s, t, me, t.list, v);
    LogKept(puts, s, t, me, v, effect);
  }

  lemma Outcome(l: List, w: Writer, h: nat, m: List, v: Writer, effect: bool)
    requires Good(l, w, h) && WriterOk(l, w) && (m, v) == StepWriter(l, w, h) && effect == TakesEffect(l, w)
    ensures StepOk(l, w, m, v) && Contents(m) == if effect then Contents(l)[v.key := v.value] else Contents(l)
  {
  }

  lemma EventKeeps(puts: seq<Put>, s: System, e: Event)
    requires SystemOk(puts, s) && Enabled(s, e)
    ensures SystemOk(puts, Step(s, e))
  {
    hide PointsToSuccessor, Sorted, Nested, SplicesOk, Contents, Replay, LogOk;
    var l, w := s.list, s.writers[e.id];
    assert WriterOk(l, w);
    StepKeeps(l, w, e.height);
    var (m, v) := StepWriter(l, w, e.height);
    Outcome(l, w, e.height, m, v, TakesEffect(l, w));
    AppliedOnce(l, w, e.height);
    SystemKept(puts, s, Step(s, e), e.id, v, TakesEffect(l, w));
  }

  lemma {:induction false} RunKeeps(puts: seq<Put>, events: seq<Event>)
    requires IsRun(puts, events)
    ensures SystemOk(puts, After(puts, events))
    decreases |events|
  {
    if events == [] {
      InitialOk(puts);
    } else {
      var front, e := events[..|events| - 1], events[|events| - 1];
      RunKeeps(puts, front);
      EventKeeps(puts, After(puts, front), e);
    }
  }

  lemma EmptyListOk()
    ensures ListOk(EmptyList()) && Contents(EmptyList()) == map[]
  {
    var l := EmptyList();
    assert forall i: nat, n | OnLevel(l, i, n) :: n == HEAD;
  }

  lemma InitialOk(puts: seq<Put>)
    ensures SystemOk(puts, Initial(puts))
  {
    hide Sorted, Nested;
    EmptyListOk();
    forall id: nat | id < |puts| ensures WriterOk(EmptyList(), Begin(puts[id])) {
    }
    var s := Initial(puts);
    assert WritersOk(puts, s) && LogOk(puts, s);
  }

  // ---------- Main results ----------

  /** However the Puts interleave: no assertion fails and every writer can take its next step,
      so no access is out of bounds. */
  lemma NeverStuck(puts: seq<Put>, events: seq<Event>, id: WriterId, height: nat)
    requires IsRun(puts, events) && id < |puts| && 1 <= height <= MAX_HEIGHT
    ensures id in After(puts, events).writers && !After(puts, events).writers[id].at.Crash?
    ensures IsRun(puts, events + [Event(id, height)])
  {
    RunKeeps(puts, events);
    var s := After(puts, events);
    StepKeeps(s.list, s.writers[id], height);
    assert (events + [Event(id, height)])[..|events|] == events;
  }

  /** Each Put takes effect at most once, and before it returns. */
  lemma EachPutOnce(puts: seq<Put>, events: seq<Event>, id: WriterId)
    requires IsRun(puts, events) && id < |puts|
    ensures var s := After(puts, events);
            && (forall i, j | 0 <= i < j < |s.log| :: s.log[i] != s.log[j])
            && id in s.writers
            && (s.writers[id].at.Done? ==> id in s.log)
            && (id in s.log ==> !s.writers[id].at.Start?)
  {
    RunKeeps(puts, events);
    assert LogOk(puts, After(puts, events));
  }

  /** The base list holds the map that the Puts build one at a time, in the order in which they
      took effect. */
  lemma PutsLinearize(puts: seq<Put>, events: seq<Event>)
    requires IsRun(puts, events)
    ensures var s := After(puts, events);
            && ListOk(s.list) && (forall i | 0 <= i < |s.log| :: s.log[i] < |puts|)
            && Contents(s.list) == Replay(puts, s.log)
  {
    RunKeeps(puts, events);
  }

  /** The nodes of level i after `n`, following the pointers. */
  ghost function Walk(l: List, i: nat, n: Ref): (nodes: seq<Ref>)
    requires ListOk(l) && i < MAX_HEIGHT && OnLevel(l, i, n)
    decreases |Ahead(l, i, n)|
  {
    assert PointsToSuccessor(l, i, n);
    var m := Next(l, i, n);
    if m == NIL then []
    else
      AheadShrinks(l, i, n, m);
      [m] + Walk(l, i, m)
  }

  ghost function Ahead(l: List, i: nat, n: Ref): set<Ref>
    requires Shape(l) && i < MAX_HEIGHT && OnLevel(l, i, n)
  {
    set o | o in l.linked[i] && OnLevel(l, i, o) && o != HEAD && Below(l, n, l.nodes[o].key)
  }

  lemma AheadShrinks(l: List, i: nat, n: Ref, m: Ref)
    requires ListOk(l) && i < MAX_HEIGHT && OnLevel(l, i, n) && OnLevel(l, i, m) && m != HEAD
    requires Below(l, n, l.nodes[m].key)
    ensures |Ahead(l, i, m)| < |Ahead(l, i, n)|
  {
    assert m in Ahead(l, i, n) && m !in Ahead(l, i, m);
    SubsetSize(Ahead(l, i, m), Ahead(l, i, n) - {m});
  }

  ghost predicate InKeyOrder(l: List, nodes: seq<Ref>) {
    && (forall a | 0 <= a < |nodes| :: 0 < nodes[a] < |l.nodes|)
    && forall a, b | 0 <= a < b < |nodes| :: Before(l.nodes[nodes[a]].key, l.nodes[nodes[b]].key)
  }

  lemma WalkOrder(l: List, i: nat, n: Ref, m: Ref, rest: seq<Ref>)
    requires Shape(l) && i < MAX_HEIGHT && OnLevel(l, i, n) && OnLevel(l, i, m) && m != HEAD
    requires InKeyOrder(l, rest) && forall o | o in rest :: o in Ahead(l, i, m)
    ensures InKeyOrder(l, [m] + rest)
  {
    forall b | 0 <= b < |rest| ensures Before(l.nodes[m].key, l.nodes[rest[b]].key) {
      assert rest[b] in rest;
    }
  }

  /** Following the pointers of a level visits each node linked there after `n` once, in key order. */
  lemma {:induction false} WalkVisits(l: List, i: nat, n: Ref)
    requires ListOk(l) && i < MAX_HEIGHT && OnLevel(l, i, n)
    ensures forall o :: o in Walk(l, i, n) <==> o in Ahead(l, i, n)
    ensures InKeyOrder(l, Walk(l, i, n))
    decreases |Ahead(l, i, n)|
  {
    assert PointsToSuccessor(l, i, n);
    var m := Next(l, i, n);
    if m != NIL {
      AheadShrinks(l, i, n, m);
      WalkVisits(l, i, m);
      forall o | o in Ahead(l, i, n) ensures o in Walk(l, i, n) {
        assert OnLevel(l, 0, o) && OnLevel(l, 0, m);
      }
      WalkOrder(l, i, n, m, Walk(l, i, m));
    }
  }

  /** The levels seen by following pointers: each is strictly sorted and a part of the one under
      it, in every state of every run. */
  lemma LevelsAreSublists(puts: seq<Put>, events: seq<Event>, i: nat)
    requires IsRun(puts, events) && i < MAX_HEIGHT
    ensures ListOk(After(puts, events).list)
    ensures var l := After(puts, events).list;
            && InKeyOrder(l, Walk(l, i, HEAD))
            && (i > 0 ==> forall n | n in Walk(l, i, HEAD) :: n in Walk(l, i - 1, HEAD))
  {
    hide PointsToSuccessor, Sorted, Contents, Replay, LogOk, WritersOk;
    RunKeeps(puts, events);
    var l := After(puts, events).list;
    WalkVisits(l, i, HEAD);
    if i > 0 {
      WalkVisits(l, i - 1, HEAD);
      forall n | n in Walk(l, i, HEAD) ensures n in Walk(l, i - 1, HEAD) {
        assert OnLevel(l, i, n) && OnLevel(l, i - 1, n);
      }
    }
  }
}
