/** skl/skl.go: the memtable's lock-free skiplist. Any number of Puts run interleaved, one atomic
    load, store or compare-and-swap at a time. */
module Skiplist {
  import opened Keys
  import opened Wrappers

  const MAX_HEIGHT: nat := 20

  /** An offset into the arena's nodes. */
  type Ref = int
  const NIL: Ref := -1
  const HEAD: Ref := 0

  datatype Node = Node(key: InternalKey, value: int, tower: seq<Ref>)

  /** `linked[i]` records which nodes a compare-and-swap has put on level i; `ListOk` says that
      following the pointers of level i visits exactly those, in order. */
  datatype List = List(nodes: seq<Node>, height: nat, linked: seq<set<Ref>>)

  /** Where a Put stands. `Find` searches a level above the height seen at the start, `Retry`
      searches again after a lost race, and `Crash` is a failed assertion. */
  datatype Place =
    | Start
    | Search(level: nat, before: Ref)
    | Overwrite(target: Ref)
    | Allocate
    | Measure
    | Raise(seen: nat)
    | Link(level: nat)
    | Find(level: nat, before: Ref)
    | Store(level: nat)
    | Swap(level: nat)
    | Retry(level: nat, before: Ref)
    | Done
    | Crash

  datatype Writer = Writer(
    key: InternalKey, value: int, at: Place, top: nat, prev: seq<Option<Ref>>, next: seq<Ref>, x: Ref)

  type WriterId = nat

  /** `log` is the order in which the Puts took effect. */
  datatype System = System(list: List, writers: map<WriterId, Writer>, log: seq<WriterId>)

  // ---------- Pointers ----------

  predicate Below(l: List, n: Ref, key: InternalKey)
    requires 0 <= n < |l.nodes|
  {
    n == HEAD || Before(l.nodes[n].key, key)
  }

  predicate Above(l: List, n: Ref, key: InternalKey)
    requires n == NIL || 0 <= n < |l.nodes|
  {
    n == NIL || (n != HEAD && Before(key, l.nodes[n].key))
  }

  predicate OnLevel(l: List, i: nat, n: Ref) {
    i < |l.linked| && n in l.linked[i] && 0 <= n < |l.nodes| && i < |l.nodes[n].tower|
  }

  function Next(l: List, i: nat, n: Ref): Ref
    requires OnLevel(l, i, n)
  {
    l.nodes[n].tower[i]
  }

  ghost predicate Shape(l: List) {
    && |l.linked| == MAX_HEIGHT && |l.nodes| > 0 && 1 <= l.height <= MAX_HEIGHT
    && (forall i | 0 <= i < MAX_HEIGHT :: OnLevel(l, i, HEAD))
    && (forall i, n | 0 <= i < MAX_HEIGHT && n in l.linked[i] :: OnLevel(l, i, n))
  }

  /** The pointer of `n` on level i is the next larger linked node, or nil when there is none. */
  ghost predicate PointsToSuccessor(l: List, i: nat, n: Ref)
    requires OnLevel(l, i, n)
  {
    var m := Next(l, i, n);
    && (m != NIL ==> m != HEAD && OnLevel(l, i, m) && Below(l, n, l.nodes[m].key))
    && forall o | OnLevel(l, i, o) && o != HEAD && Below(l, n, l.nodes[o].key) ::
         m != NIL && (m == o || (OnLevel(l, i, m) && Before(l.nodes[m].key, l.nodes[o].key)))
  }

  ghost predicate Sorted(l: List) {
    forall i, n | 0 <= i < MAX_HEIGHT && OnLevel(l, i, n) :: PointsToSuccessor(l, i, n)
  }

  /** Every level holds a part of each level under it, and no key is linked twice. */
  ghost predicate Nested(l: List) {
    && (forall i, j, n | 0 <= i <= j < MAX_HEIGHT && OnLevel(l, j, n) :: OnLevel(l, i, n))
    && (forall m, n | OnLevel(l, 0, m) && OnLevel(l, 0, n) && m != HEAD && n != HEAD && l.nodes[m].key == l.nodes[n].key :: m == n)
  }

  ghost predicate ListOk(l: List) {
    Shape(l) && Sorted(l) && Nested(l)
  }

  // ---------- One step of a Put ----------

  function SetNode(l: List, n: Ref, node: Node): List
    requires 0 <= n < |l.nodes|
  {
    l.(nodes := l.nodes[n := node])
  }

  /** One round of findSpliceForLevel from `before`: move right, stop with a splice, or meet the
      key itself. */
  datatype Look = Right(node: Ref) | Splice(before: Ref, after: Ref) | Same(node: Ref)

  function LookRight(l: List, level: nat, before: Ref, key: InternalKey): Look
    requires OnLevel(l, level, before)
    requires Next(l, level, before) == NIL || 0 <= Next(l, level, before) < |l.nodes|
  {
    var next := Next(l, level, before);
    if next == NIL then Splice(before, next)
    else if key == l.nodes[next].key then Same(next)
    else if Before(key, l.nodes[next].key) then Splice(before, next)
    else Right(next)
  }

  function Record(w: Writer, level: nat, before: Ref, after: Ref): Writer
    requires level < |w.prev| && level < |w.next|
  {
    w.(prev := w.prev[level := Some(before)], next := w.next[level := after])
  }

  ghost predicate CanLook(l: List, level: nat, before: Ref) {
    && OnLevel(l, level, before)
    && (Next(l, level, before) == NIL || 0 <= Next(l, level, before) < |l.nodes|)
  }

  /** What the next step of `w` needs so that no access is out of bounds. */
  ghost predicate Safe(l: List, w: Writer) {
    && |w.prev| == MAX_HEIGHT + 1 && |w.next| == MAX_HEIGHT + 1 && 1 <= l.height <= MAX_HEIGHT
    && match w.at
       case Search(i, before) => i < MAX_HEIGHT && CanLook(l, i, before)
       case Overwrite(n) => 0 <= n < |l.nodes|
       case Find(i, before) => i < MAX_HEIGHT && CanLook(l, i, before)
       case Retry(i, before) => i < MAX_HEIGHT && CanLook(l, i, before)
       case Measure => 0 <= w.x < |l.nodes|
       case Raise(_) => 0 <= w.x < |l.nodes|
       case Link(i) => 0 <= w.x < |l.nodes| && i <= |l.nodes[w.x].tower| <= MAX_HEIGHT
       case Store(i) => 0 <= w.x < |l.nodes| && i < |l.nodes[w.x].tower| && i < MAX_HEIGHT
       case Swap(i) => i < MAX_HEIGHT && i < |l.linked| && w.prev[i].Some? && OnLevel(l, i, w.prev[i].value)
       case _ => true
  }

  /** The step of a Put; `height` is the random tower height. */
  function StepWriter(l: List, w: Writer, height: nat): (List, Writer)
    requires Safe(l, w) && 1 <= height <= MAX_HEIGHT
  {
    match w.at
    case Start =>
      var r := Record(w, l.height, HEAD, NIL);
      (l, r.(top := l.height, at := Search(l.height - 1, HEAD)))
    case Search(i, before) =>
      (match LookRight(l, i, before, w.key)
       case Right(n) => (l, w.(at := Search(i, n)))
       case Same(n) => (l, w.(at := Overwrite(n)))
       case Splice(b, a) =>
         (l, Record(w, i, b, a).(at := if i == 0 then Allocate else Search(i - 1, b))))
    case Overwrite(n) =>
      (SetNode(l, n, l.nodes[n].(value := w.value)), w.(at := Done))
    case Allocate =>
      (l.(nodes := l.nodes + [Node(w.key, w.value, seq(height, _ => NIL))]), w.(x := |l.nodes|, at := Measure))
    case Measure =>
      (l, w.(at := if |l.nodes[w.x].tower| > l.height then Raise(l.height) else Link(0)))
    case Raise(seen) =>
      if l.height == seen && |l.nodes[w.x].tower| <= MAX_HEIGHT && 1 <= |l.nodes[w.x].tower| then
        (l.(height := |l.nodes[w.x].tower|), w.(at := Link(0)))
      else (l, w.(at := Measure))
    case Link(i) =>
      if i == |l.nodes[w.x].tower| then (l, w.(at := Done))
      else if w.prev[i].Some? then (l, w.(at := Store(i)))
      else if i > 1 then (l, w.(at := Find(i, HEAD)))
      else (l, w.(at := Crash))
    case Find(i, before) =>
      (match LookRight(l, i, before, w.key)
       case Right(n) => (l, w.(at := Find(i, n)))
       case Same(n) => (l, w.(at := Crash))
       case Splice(b, a) => (l, Record(w, i, b, a).(at := Store(i))))
    case Store(i) =>
      var node := l.nodes[w.x];
      (SetNode(l, w.x, node.(tower := node.tower[i := w.next[i]])), w.(at := Swap(i)))
    case Swap(i) =>
      var p := w.prev[i].value;
      if Next(l, i, p) == w.next[i] then
        var node := l.nodes[p];
        (SetNode(l, p, node.(tower := node.tower[i := w.x])).(linked := l.linked[i := l.linked[i] + {w.x}]),
         w.(at := Link(i + 1)))
      else (l, w.(at := Retry(i, p)))
    case Retry(i, before) =>
      (match LookRight(l, i, before, w.key)
       case Right(n) => (l, w.(at := Retry(i, n)))
       case Same(n) => (l, w.(at := if i == 0 then Overwrite(n) else Crash))
       case Splice(b, a) => (l, Record(w, i, b, a).(at := Store(i))))
    case _ => (l, w)
  }

  /** The step that makes the Put visible: linking the node at the base, or overwriting. */
  predicate TakesEffect(l: List, w: Writer)
    requires w.at.Swap? ==> w.at.level < |w.prev| && w.at.level < |w.next|
    requires w.at.Swap? ==> w.prev[w.at.level].Some? && OnLevel(l, w.at.level, w.prev[w.at.level].value)
  {
    || w.at.Overwrite?
    || (w.at.Swap? && w.at.level == 0 && Next(l, 0, w.prev[0].value) == w.next[0])
  }

  datatype Event = Event(id: WriterId, height: nat)

  ghost predicate Enabled(s: System, e: Event) {
    e.id in s.writers && 1 <= e.height <= MAX_HEIGHT && Safe(s.list, s.writers[e.id])
  }

  ghost function Step(s: System, e: Event): System
    requires Enabled(s, e)
  {
    var w := s.writers[e.id];
    var (list, stepped) := StepWriter(s.list, w, e.height);
    System(list, s.writers[e.id := stepped], if TakesEffect(s.list, w) then s.log + [e.id] else s.log)
  }

  // ---------- Runs ----------

  function EmptyList(): List {
    List([Node(InternalKey(0, 0), 0, seq(MAX_HEIGHT, _ => NIL))], 1, seq(MAX_HEIGHT, _ => {HEAD}))
  }

  datatype Put = Put(key: InternalKey, value: int)

  function Begin(p: Put): Writer {
    Writer(p.key, p.value, Start, 0, seq(MAX_HEIGHT + 1, _ => None), seq(MAX_HEIGHT + 1, _ => NIL), NIL)
  }

  ghost function Initial(puts: seq<Put>): System {
    System(EmptyList(), map id: nat | 0 <= id < |puts| :: Begin(puts[id]), [])
  }

  /** The state after the scheduler picked `events`, one atomic step each. `RunKeeps` shows that
      a step of a known writer is always possible. */
  ghost predicate IsRun(puts: seq<Put>, events: seq<Event>)
    decreases |events|, 0
  {
    events != [] ==>
      && IsRun(puts, events[..|events| - 1])
      && Enabled(After(puts, events[..|events| - 1]), events[|events| - 1])
  }

  ghost function After(puts: seq<Put>, events: seq<Event>): System
    requires IsRun(puts, events)
    decreases |events|, 1
  {
    if events == [] then Initial(puts)
    else Step(After(puts, events[..|events| - 1]), events[|events| - 1])
  }

  /** The ordered map the base list stands for. */
  ghost function Contents(l: List): map<InternalKey, int>
    requires ListOk(l)
  {
    map n | n in l.linked[0] && n != HEAD :: l.nodes[n].key := l.nodes[n].value
  }

  /** The map after the Puts of `log`, one at a time. */
  function Replay(puts: seq<Put>, log: seq<WriterId>): map<InternalKey, int>
    requires forall i | 0 <= i < |log| :: log[i] < |puts|
  {
    if log == [] then map[]
    else
      var id := log[|log| - 1];
      Replay(puts, log[..|log| - 1])[puts[id].key := puts[id].value]
  }
}
