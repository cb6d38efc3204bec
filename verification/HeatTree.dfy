/** heatLSM: a range tree whose leaves split on common prefixes of sampled keys and collapse
    again when cold, over a chunked pool of statistics slots with a free list. */
module HeatTree {
  import opened HeatRouting

  // ---------- Nodes ----------

  class HeatNode {
    const level: nat
    const rangeStart: Key
    const rangeEnd: Key  // empty: no upper bound
    const pathSegment: Key
    var isLeaf: bool
    var children: seq<HeatNode>
    var splitRangeKey: seq<Key>
    var statsID: int

    constructor (level: nat, start: Key, end: Key, pathSegment: Key, statsID: int)
      ensures this.level == level && rangeStart == start && rangeEnd == end && this.pathSegment == pathSegment
      ensures isLeaf && children == [] && splitRangeKey == [] && this.statsID == statsID
    {
      this.level, rangeStart, rangeEnd, this.pathSegment := level, start, end, pathSegment;
      isLeaf, children, splitRangeKey, this.statsID := true, [], [], statsID;
    }

    predicate InRange(k: Key) {
      !Less(k, rangeStart) && (rangeEnd == [] || Less(k, rangeEnd))
    }

    /** `k`, relative to the parent, is a key for this node. */
    predicate Belongs(k: Key) {
      IsPrefix(pathSegment, k) && (pathSegment == [] ==> InRange(k))
    }

    /** `rest` is what is left of such a key behind this node's path. */
    predicate Holds(rest: Key) {
      pathSegment == [] ==> InRange(rest)
    }
  }

  /** Every key of the node goes on to a child that it belongs to. */
  ghost predicate Routes(n: HeatNode, children: seq<HeatNode>, splits: seq<Key>) {
    children != [] && forall k: Key | n.Holds(k) :: children[At(splits, |children|, k)].Belongs(k)
  }

  // ---------- The tree and its slots ----------

  const CHUNK: nat := 1024

  /** The statistics of a leaf; the counters and the sketch are not part of this model. */
  datatype RegionStats = RegionStats(isActive: bool, reservoir: seq<Key>)

  /** How many slots the chunks hold. */
  function Slots(chunks: seq<seq<RegionStats>>): nat {
    if chunks == [] then 0 else CHUNK * (|chunks| - 1) + |chunks[|chunks| - 1]|
  }

  predicate ChunksOk(chunks: seq<seq<RegionStats>>) {
    forall i | 0 <= i < |chunks| :: 0 < |chunks[i]| <= CHUNK && (i < |chunks| - 1 ==> |chunks[i]| == CHUNK)
  }

  predicate ValidSlot(chunks: seq<seq<RegionStats>>, id: int) {
    0 <= id && id / CHUNK < |chunks| && id % CHUNK < |chunks[id / CHUNK]|
  }

  /** A slot exists exactly when its number is below the count. */
  lemma SlotsInOrder(chunks: seq<seq<RegionStats>>, id: int)
    requires ChunksOk(chunks) && 0 <= id
    ensures ValidSlot(chunks, id) <==> id < Slots(chunks)
  {
    assert id == CHUNK * (id / CHUNK) + id % CHUNK;
  }

  predicate NoRepeats(s: seq<int>) {
    forall i, j | 0 <= i < j < |s| :: s[i] != s[j]
  }

  // ---------- The shape of the tree, as maps over its nodes ----------

  type Kids = map<HeatNode, seq<HeatNode>>

  ghost predicate ChildrenKnown(kids: Kids, root: HeatNode, depth: nat) {
    && root in kids
    && (forall n | n in kids :: n.level <= depth)
    && forall n, c | n in kids && c in kids[n] :: c in kids && c != root && c.level == n.level + 1
  }

  /** No node is the child of two nodes, or twice of one. */
  ghost predicate OneParent(kids: Kids) {
    && (forall n, m, c | n in kids && m in kids && c in kids[n] && c in kids[m] :: n == m)
    && forall n | n in kids :: Once(kids[n])
  }

  predicate Once(s: seq<HeatNode>) {
    forall i, j | 0 <= i < j < |s| :: s[i] != s[j]
  }

  ghost predicate AllReached(kids: Kids, root: HeatNode) {
    forall c | c in kids && c != root :: exists n :: n in kids && c in kids[n]
  }

  ghost predicate TreeShaped(kids: Kids, root: HeatNode, depth: nat) {
    ChildrenKnown(kids, root, depth) && OneParent(kids) && AllReached(kids, root)
  }

  /** Each leaf owns one slot of its own, the other nodes none, and no other slot is in use. */
  ghost predicate SlotsOwned(kids: Kids, slots: map<HeatNode, int>, inUse: set<int>) {
    && slots.Keys == kids.Keys
    && (forall n | n in kids :: if kids[n] == [] then slots[n] in inUse else slots[n] == -1)
    && (forall n, m | n in kids && m in kids && kids[n] == [] && kids[m] == [] && slots[n] == slots[m] :: n == m)
    && forall id | id in inUse :: exists n :: n in kids && kids[n] == [] && slots[n] == id
  }

  /** The leaf `n` gets new children, and everything else stays. */
  ghost predicate Grows(kids: Kids, n: HeatNode, children: seq<HeatNode>, grown: Kids) {
    && n in kids && kids[n] == [] && (forall c | c in children :: c !in kids && c.level == n.level + 1)
    && grown.Keys == kids.Keys + (set c | c in children) && grown[n] == children
    && (forall m | m in kids && m != n :: grown[m] == kids[m])
    && forall c | c in children :: grown[c] == []
  }

  lemma GrowParents(kids: Kids, root: HeatNode, depth: nat, n: HeatNode, children: seq<HeatNode>, grown: Kids)
    requires ChildrenKnown(kids, root, depth) && OneParent(kids) && Once(children) && Grows(kids, n, children, grown)
    ensures OneParent(grown)
  {
    forall a, b, c | a in grown && b in grown && c in grown[a] && c in grown[b] ensures a == b {
      assert c in children ==> c !in kids;
    }
    forall m | m in grown ensures Once(grown[m]) {
    }
  }

  lemma GrowReached(kids: Kids, root: HeatNode, n: HeatNode, children: seq<HeatNode>, grown: Kids)
    requires AllReached(kids, root) && Grows(kids, n, children, grown)
    ensures AllReached(grown, root)
  {
    forall c | c in grown && c != root ensures exists m :: m in grown && c in grown[m] {
      if c in children {
        assert n in grown && c in grown[n];
      } else {
        var m :| m in kids && c in kids[m];
        assert m in grown && c in grown[m];
      }
    }
  }

  lemma GrowKnown(kids: Kids, root: HeatNode, depth: nat, n: HeatNode, children: seq<HeatNode>, grown: Kids, depth': nat)
    requires ChildrenKnown(kids, root, depth) && Grows(kids, n, children, grown)
    requires depth <= depth' && n.level + 1 <= depth'
    ensures ChildrenKnown(grown, root, depth')
  {
    forall m | m in grown ensures m in kids || grown[m] == [] {
    }
  }

  lemma GrowShape(kids: Kids, root: HeatNode, depth: nat, n: HeatNode, children: seq<HeatNode>, grown: Kids, depth': nat)
    requires TreeShaped(kids, root, depth) && Once(children) && Grows(kids, n, children, grown)
    requires depth <= depth' && n.level + 1 <= depth'
    ensures TreeShaped(grown, root, depth')
  {
    hide ChildrenKnown, OneParent, AllReached, Grows, Once;
    GrowKnown(kids, root, depth, n, children, grown, depth');
    GrowParents(kids, root, depth, n, children, grown);
    GrowReached(kids, root, n, children, grown);
  }

  lemma GrowSlots(kids: Kids, slots: map<HeatNode, int>, inUse: set<int>, n: HeatNode, children: seq<HeatNode>,
                  grown: Kids, slots': map<HeatNode, int>, inUse': set<int>)
    requires SlotsOwned(kids, slots, inUse) && Grows(kids, n, children, grown) && children != []
    requires slots'.Keys == grown.Keys && slots'[n] == -1
    requires forall m | m in kids && m != n :: slots'[m] == slots[m]
    requires forall c | c in children :: slots'[c] !in inUse
    requires forall c, d | c in children && d in children && slots'[c] == slots'[d] :: c == d
    requires inUse' == inUse - {slots[n]} + (set c | c in children :: slots'[c])
    ensures SlotsOwned(grown, slots', inUse')
  {
    forall m | m in grown && grown[m] == [] ensures slots'[m] in inUse' {
      if m !in children {
        assert slots[m] == slots[n] ==> m == n;
      }
    }
    forall id | id in inUse' ensures exists m :: m in grown && grown[m] == [] && slots'[m] == id {
      if id in inUse && id != slots[n] {
        var m :| m in kids && kids[m] == [] && slots[m] == id;
        assert m in grown && grown[m] == [] && slots'[m] == id;
      } else {
        var c :| c in children && slots'[c] == id;
        assert c in grown;
      }
    }
  }

  /** The children of `n`, all leaves, are dropped. */
  ghost predicate Shrinks(kids: Kids, n: HeatNode, shrunk: Kids) {
    && n in kids && (forall c | c in kids[n] :: c in kids && c != n && kids[c] == [])
    && shrunk.Keys == kids.Keys - (set c | c in kids[n]) && shrunk[n] == []
    && forall m | m in shrunk && m != n :: shrunk[m] == kids[m]
  }

  lemma ShrinkKnown(kids: Kids, root: HeatNode, depth: nat, n: HeatNode, shrunk: Kids)
    requires ChildrenKnown(kids, root, depth) && OneParent(kids) && Shrinks(kids, n, shrunk)
    ensures ChildrenKnown(shrunk, root, depth)
  {
    forall m, c | m in shrunk && c in shrunk[m] ensures c in shrunk && c != root && c.level == m.level + 1 {
      assert m != n && m in kids && c in kids[m];
    }
  }

  lemma ShrinkReached(kids: Kids, root: HeatNode, n: HeatNode, shrunk: Kids)
    requires AllReached(kids, root) && Shrinks(kids, n, shrunk)
    ensures AllReached(shrunk, root)
  {
    forall c | c in shrunk && c != root ensures exists m :: m in shrunk && c in shrunk[m] {
      var m :| m in kids && c in kids[m];
      assert m != n && kids[m] != [];
      assert m in shrunk && c in shrunk[m];
    }
  }

  lemma ShrinkParents(kids: Kids, n: HeatNode, shrunk: Kids)
    requires OneParent(kids) && Shrinks(kids, n, shrunk)
    ensures OneParent(shrunk)
  {
    forall m | m in shrunk ensures Once(shrunk[m]) {
      assert m != n ==> Once(kids[m]);
    }
  }

  lemma ShrinkShape(kids: Kids, root: HeatNode, depth: nat, n: HeatNode, shrunk: Kids)
    requires TreeShaped(kids, root, depth) && Shrinks(kids, n, shrunk)
    ensures TreeShaped(shrunk, root, depth)
  {
    hide ChildrenKnown, OneParent, AllReached, Shrinks;
    ShrinkKnown(kids, root, depth, n, shrunk);
    ShrinkReached(kids, root, n, shrunk);
    ShrinkParents(kids, n, shrunk);
  }

  lemma ShrinkSlots(kids: Kids, slots: map<HeatNode, int>, inUse: set<int>, n: HeatNode,
                    shrunk: Kids, slots': map<HeatNode, int>, inUse': set<int>)
    requires SlotsOwned(kids, slots, inUse) && Shrinks(kids, n, shrunk) && kids[n] != []
    requires slots'.Keys == shrunk.Keys && forall m | m in shrunk && m != n :: slots'[m] == slots[m]
    requires slots'[n] !in inUse - (set c | c in kids[n] :: slots[c])
    requires inUse' == inUse - (set c | c in kids[n] :: slots[c]) + {slots'[n]}
    ensures SlotsOwned(shrunk, slots', inUse')
  {
    forall m | m in shrunk && shrunk[m] == [] ensures slots'[m] in inUse' {
      if m != n {
        assert forall c | c in kids[n] :: kids[c] == [] && (slots[c] == slots[m] ==> c == m);
      }
    }
    forall id | id in inUse' ensures exists m :: m in shrunk && shrunk[m] == [] && slots'[m] == id {
      if id == slots'[n] {
        assert n in shrunk && shrunk[n] == [];
      } else {
        var m :| m in kids && kids[m] == [] && slots[m] == id;
        assert m in shrunk && shrunk[m] == [] && slots'[m] == id;
      }
    }
    forall a, b | a in shrunk && b in shrunk && shrunk[a] == [] && shrunk[b] == [] && slots'[a] == slots'[b] ensures a == b {
      assert a != n && b != n ==> kids[a] == [] && kids[b] == [];
      assert a != n ==> forall c | c in kids[n] :: slots[c] == slots[a] ==> c == a;
      assert b != n ==> forall c | c in kids[n] :: slots[c] == slots[b] ==> c == b;
    }
  }

  // ---------- Folding from below ----------

  /** `m` is `n` or somewhere below it. */
  ghost predicate Under(kids: Kids, n: HeatNode, m: HeatNode)
    decreases m.level
  {
    m == n || exists p :: p in kids && m in kids[p] && p.level < m.level && Under(kids, n, p)
  }

  lemma {:induction false} UnderLevels(kids: Kids, n: HeatNode, m: HeatNode)
    requires Under(kids, n, m)
    ensures n.level <= m.level && (n.level == m.level ==> n == m)
    decreases m.level
  {
    if m != n {
      var p :| p in kids && m in kids[p] && p.level < m.level && Under(kids, n, p);
      UnderLevels(kids, n, p);
    }
  }

  /** Nothing is below two nodes of one level. */
  lemma {:induction false} OneAbove(kids: Kids, root: HeatNode, depth: nat, a: HeatNode, b: HeatNode, m: HeatNode)
    requires TreeShaped(kids, root, depth) && a.level == b.level && Under(kids, a, m) && Under(kids, b, m)
    ensures a == b
    decreases m.level
  {
    hide TreeShaped;
    UnderLevels(kids, a, m);
    UnderLevels(kids, b, m);
    if m != a && m != b {
      var p :| p in kids && m in kids[p] && p.level < m.level && Under(kids, a, p);
      var q :| q in kids && m in kids[q] && q.level < m.level && Under(kids, b, q);
      SameParent(kids, root, depth, p, q, m);
      OneAbove(kids, root, depth, a, b, p);
    }
  }

  lemma SameParent(kids: Kids, root: HeatNode, depth: nat, p: HeatNode, q: HeatNode, m: HeatNode)
    requires TreeShaped(kids, root, depth) && p in kids && q in kids && m in kids[p] && m in kids[q]
    ensures p == q && m in kids && m != root && m.level == p.level + 1
  {
  }

  lemma {:induction false} UnderChild(kids: Kids, n: HeatNode, m: HeatNode) returns (c: HeatNode)
    requires Under(kids, n, m) && m != n
    ensures n in kids && c in kids[n] && Under(kids, c, m)
    decreases m.level
  {
    var p :| p in kids && m in kids[p] && p.level < m.level && Under(kids, n, p);
    if p == n {
      c := m;
    } else {
      c := UnderChild(kids, n, p);
    }
  }

  lemma {:induction false} ChildUnder(kids: Kids, root: HeatNode, depth: nat, n: HeatNode, c: HeatNode, m: HeatNode)
    requires TreeShaped(kids, root, depth) && n in kids && c in kids[n] && Under(kids, c, m)
    ensures Under(kids, n, m)
    decreases m.level
  {
    hide TreeShaped;
    SameParent(kids, root, depth, n, n, c);
    if m == c {
      assert Under(kids, n, n);
    } else {
      var p :| p in kids && m in kids[p] && p.level < m.level && Under(kids, c, p);
      ChildUnder(kids, root, depth, n, c, p);
    }
  }

  /** Some nodes have lost all their children. */
  ghost predicate Pruned(kids: Kids, now: Kids) {
    now.Keys <= kids.Keys && forall m | m in now :: now[m] == kids[m] || now[m] == []
  }

  /** What is left stands where it stood. */
  lemma {:induction false} UnderKept(kids: Kids, now: Kids, root: HeatNode, depth: nat, n: HeatNode, m: HeatNode)
    requires TreeShaped(kids, root, depth) && TreeShaped(now, root, depth) && Pruned(kids, now) && n in now && m in now
    ensures Under(now, n, m) <==> Under(kids, n, m)
    decreases m.level
  {
    hide TreeShaped;
    if m != n {
      if Under(now, n, m) {
        var p :| p in now && m in now[p] && p.level < m.level && Under(now, n, p);
        UnderKept(kids, now, root, depth, n, p);
      }
      if Under(kids, n, m) {
        var p :| p in kids && m in kids[p] && p.level < m.level && Under(kids, n, p);
        SameParent(kids, root, depth, p, p, m);
        var q := ParentOf(now, root, depth, m);
        SameParent(kids, root, depth, p, q, m);
        UnderKept(kids, now, root, depth, n, p);
      }
    }
  }

  lemma ParentOf(kids: Kids, root: HeatNode, depth: nat, m: HeatNode) returns (p: HeatNode)
    requires TreeShaped(kids, root, depth) && m in kids && m != root
    ensures p in kids && m in kids[p]
  {
    p :| p in kids && m in kids[p];
  }

  /** Every node of the tree is below the root. */
  lemma {:induction false} AllUnder(kids: Kids, root: HeatNode, depth: nat, m: HeatNode)
    requires TreeShaped(kids, root, depth) && m in kids
    ensures Under(kids, root, m)
    decreases m.level
  {
    hide TreeShaped;
    if m != root {
      var p := ParentOf(kids, root, depth, m);
      SameParent(kids, root, depth, p, p, m);
      AllUnder(kids, root, depth, p);
    }
  }

  /** Nothing is left to fold here: a leaf, or not cold, or some child is no leaf. */
  ghost predicate Cooled(kids: Kids, m: HeatNode, cold: HeatNode -> bool)
    requires m in kids
  {
    kids[m] == [] || !cold(m) || exists c :: c in kids[m] && c in kids && kids[c] != []
  }

  /** Everything below the nodes `at` has been folded as far as it goes, only cold nodes have, and all
      else is as it was. */
  ghost predicate Decayed(kids: Kids, now: Kids, at: seq<HeatNode>, cold: HeatNode -> bool) {
    && Pruned(kids, now)
    && (forall m | m in kids && (forall n | n in at :: !Under(kids, n, m)) :: m in now && now[m] == kids[m])
    && (forall m, n | m in now && n in at && Under(kids, n, m) :: Cooled(now, m, cold))
    && forall m | m in now && now[m] != kids[m] :: cold(m)
  }

  lemma DecayedNone(kids: Kids, cold: HeatNode -> bool)
    ensures Decayed(kids, kids, [], cold)
  {
  }

  lemma DecayedMore(kids: Kids, mid: Kids, now: Kids, root: HeatNode, depth: nat, at: seq<HeatNode>, c: HeatNode, cold: HeatNode -> bool)
    requires TreeShaped(kids, root, depth) && TreeShaped(mid, root, depth) && TreeShaped(now, root, depth)
    requires Decayed(kids, mid, at, cold) && Decayed(mid, now, [c], cold) && c in mid && c !in at
    requires forall n | n in at :: n in mid && n.level == c.level
    ensures Decayed(kids, now, at + [c], cold)
  {
    hide TreeShaped, Under, Cooled;
    assert Pruned(kids, now);
    assert c in [c] && c in at + [c] && forall n | n in at :: n in at + [c];
    forall m | m in mid ensures Under(mid, c, m) <==> Under(kids, c, m) {
      UnderKept(kids, mid, root, depth, c, m);
    }
    forall m | m in kids && (forall n | n in at + [c] :: !Under(kids, n, m)) ensures m in now && now[m] == kids[m] {
      assert m in mid && mid[m] == kids[m];
    }
    forall m, n | m in now && n in at + [c] && Under(kids, n, m) ensures Cooled(now, m, cold) {
      if n != c {
        StillCooled(kids, mid, now, root, depth, n, c, m, cold);
      }
    }
  }

  lemma StillCooled(kids: Kids, mid: Kids, now: Kids, root: HeatNode, depth: nat, n: HeatNode, c: HeatNode, m: HeatNode,
                    cold: HeatNode -> bool)
    requires TreeShaped(kids, root, depth) && TreeShaped(mid, root, depth) && TreeShaped(now, root, depth)
    requires Pruned(kids, mid) && Decayed(mid, now, [c], cold)
    requires n in mid && c in mid && n != c && n.level == c.level && m in now && m in mid && Under(kids, n, m) && Cooled(mid, m, cold)
    ensures Cooled(now, m, cold)
  {
    hide TreeShaped, Under;
    UnderKept(kids, mid, root, depth, n, m);
    if Under(mid, c, m) {
      OneAbove(mid, root, depth, n, c, m);
    }
    assert mid[m] == now[m];
    if mid[m] != [] && cold(m) {
      var k :| k in mid[m] && k in mid && mid[k] != [];
      OneFurtherUnder(mid, root, depth, n, m, k);
      if Under(mid, c, k) {
        OneAbove(mid, root, depth, n, c, k);
      }
      assert k in now && now[k] == mid[k];
    }
  }

  lemma OneFurtherUnder(kids: Kids, root: HeatNode, depth: nat, n: HeatNode, m: HeatNode, k: HeatNode)
    requires TreeShaped(kids, root, depth) && m in kids && k in kids[m] && Under(kids, n, m)
    ensures Under(kids, n, k)
  {
    hide TreeShaped;
    SameParent(kids, root, depth, m, m, k);
  }

  /** When its children are done and it is not folded, or cannot be. */
  lemma DecayedUp(kids: Kids, now: Kids, root: HeatNode, depth: nat, n: HeatNode, cold: HeatNode -> bool)
    requires TreeShaped(kids, root, depth) && n in kids && Decayed(kids, now, kids[n], cold)
    requires n in now && Cooled(now, n, cold)
    ensures Decayed(kids, now, [n], cold)
  {
    hide TreeShaped, Under;
    assert n in [n];
    forall m | m in kids && (forall x | x in [n] :: !Under(kids, x, m)) ensures m in now && now[m] == kids[m] {
      forall c | c in kids[n] ensures !Under(kids, c, m) {
        if Under(kids, c, m) {
          ChildUnder(kids, root, depth, n, c, m);
        }
      }
    }
    forall m, x | m in now && x in [n] && Under(kids, x, m) ensures Cooled(now, m, cold) {
      if m != n {
        var c := UnderChild(kids, n, m);
      }
    }
  }

  /** When it is cold and folded. */
  lemma DecayedFold(kids: Kids, mid: Kids, now: Kids, root: HeatNode, depth: nat, n: HeatNode, cold: HeatNode -> bool)
    requires TreeShaped(kids, root, depth) && TreeShaped(mid, root, depth)
    requires n in kids && Decayed(kids, mid, kids[n], cold) && n in mid && mid[n] == kids[n]
    requires Shrinks(mid, n, now) && cold(n)
    ensures Decayed(kids, now, [n], cold)
  {
    hide TreeShaped, Under;
    assert n in [n];
    forall m | m in kids && (forall x | x in [n] :: !Under(kids, x, m)) ensures m in now && now[m] == kids[m] {
      assert !Under(kids, n, m);
      NotUnder(kids, root, depth, n, m);
    }
    forall m, x | m in now && x in [n] && Under(kids, x, m) ensures Cooled(now, m, cold) {
      if m != n {
        var c := UnderChild(kids, n, m);
        NothingDeeper(kids, mid, root, depth, c, m);
      }
    }
  }

  lemma NotUnder(kids: Kids, root: HeatNode, depth: nat, n: HeatNode, m: HeatNode)
    requires TreeShaped(kids, root, depth) && n in kids && !Under(kids, n, m)
    ensures m != n && m !in kids[n] && forall c | c in kids[n] :: !Under(kids, c, m)
  {
    hide TreeShaped;
    assert Under(kids, n, n);
    forall c | c in kids[n] ensures !Under(kids, c, m) {
      if Under(kids, c, m) {
        ChildUnder(kids, root, depth, n, c, m);
      }
    }
    assert Under(kids, m, m);
  }

  /** Below a leaf there is nothing. */
  lemma NothingDeeper(kids: Kids, mid: Kids, root: HeatNode, depth: nat, c: HeatNode, m: HeatNode)
    requires TreeShaped(kids, root, depth) && TreeShaped(mid, root, depth) && Pruned(kids, mid)
    requires c in mid && mid[c] == [] && m in mid && Under(kids, c, m)
    ensures m == c
  {
    hide TreeShaped;
    UnderKept(kids, mid, root, depth, c, m);
    if m != c {
      var k := UnderChild(mid, c, m);
    }
  }

  lemma LeafSlot(kids: Kids, slots: map<HeatNode, int>, inUse: set<int>, n: HeatNode)
    requires SlotsOwned(kids, slots, inUse) && n in kids && kids[n] == []
    ensures slots[n] in inUse
  {
  }

  lemma OneLeaf(r: HeatNode, id: int)
    requires r.level == 0
    ensures TreeShaped(map[r := []], r, 0) && SlotsOwned(map[r := []], map[r := id], {id})
  {
    var kids: Kids := map[r := []];
    assert r in kids;
  }

  /** The paths of a chain of nodes, one after the other. */
  function PathsOf(chain: seq<HeatNode>): Key {
    if chain == [] then [] else PathsOf(chain[..|chain| - 1]) + chain[|chain| - 1].pathSegment
  }

  datatype Event = Sample(key: Key, prefixes: seq<Key>) | DecayAll(cold: HeatNode -> bool)

  class HeatmapManager {
    var root: HeatNode
    var statsChunks: seq<seq<RegionStats>>
    var freeList: seq<int>
    /** The nodes of the tree, and a bound on their levels. */
    ghost var nodes: set<HeatNode>
    ghost var depth: nat

    /** One leaf for all keys. */
    constructor ()
      ensures Linked() && Owned() && Routed()
      ensures fresh(nodes)
    {
      hide *;
      var r := new HeatNode(0, [], [], [], -1);
      root, statsChunks, freeList, nodes, depth := r, [], [], {r}, 0;
      new;
      Plant(r);
    }

    /** The first leaf gets the first slot. */
    method Plant(r: HeatNode)
      requires statsChunks == [] && freeList == [] && nodes == {r} && root == r && depth == 0
      requires r.level == 0 && r.rangeStart == [] && r.rangeEnd == [] && r.pathSegment == [] && r.isLeaf && r.children == []
      modifies this`statsChunks, this`freeList, r
      ensures Linked() && Owned() && Routed()
    {
      NothingInUse();
      hide TreeShaped, SlotsOwned, PoolOk, InUse;
      var id := AllocateStats();
      r.statsID := id;
      OneLeaf(r, id);
      assert KidsOf() == map[r := []] && SlotsOf() == map[r := id];
      assert InUse() == {id};
    }

    lemma NothingInUse()
      requires statsChunks == [] && freeList == []
      ensures PoolOk() && InUse() == {}
    {
    }

    // ---------- The pool ----------

    /** Every slot that is not in use is in the free list, once. */
    ghost predicate PoolOk()
      reads this`statsChunks, this`freeList
    {
      && ChunksOk(statsChunks) && NoRepeats(freeList)
      && (forall id | id in freeList :: 0 <= id < Slots(statsChunks))
      && forall id | 0 <= id < Slots(statsChunks) ::
           ValidSlot(statsChunks, id) && (statsChunks[id / CHUNK][id % CHUNK].isActive <==> id !in freeList)
    }

    ghost function InUse(): set<int>
      reads this`statsChunks, this`freeList
    {
      set id | 0 <= id < Slots(statsChunks) && id !in freeList
    }

    method SetActive(id: int, active: bool)
      requires ChunksOk(statsChunks) && ValidSlot(statsChunks, id)
      modifies this`statsChunks
      ensures ChunksOk(statsChunks) && Slots(statsChunks) == Slots(old(statsChunks))
      ensures forall i :: ValidSlot(statsChunks, i) <==> ValidSlot(old(statsChunks), i)
      ensures forall i | ValidSlot(statsChunks, i) ::
          statsChunks[i / CHUNK][i % CHUNK].isActive == if i == id then active else old(statsChunks)[i / CHUNK][i % CHUNK].isActive
    {
      var chunk := statsChunks[id / CHUNK];
      var stats := RegionStats(active, []);
      statsChunks := statsChunks[id / CHUNK := chunk[id % CHUNK := stats]];
      forall i | ValidSlot(statsChunks, i) && i / CHUNK == id / CHUNK && i % CHUNK == id % CHUNK ensures i == id {
        assert i == CHUNK * (i / CHUNK) + i % CHUNK && id == CHUNK * (id / CHUNK) + id % CHUNK;
      }
    }

    method PopFree() returns (id: int)
      requires PoolOk() && freeList != []
      modifies this`statsChunks, this`freeList
      ensures PoolOk() && id !in old(InUse()) && InUse() == old(InUse()) + {id}
    {
      id := freeList[|freeList| - 1];
      assert id in freeList;
      SetActive(id, true);
      freeList := freeList[..|freeList| - 1];
      assert old(freeList) == freeList + [id];
      assert id !in freeList && forall x | x in freeList :: x in old(freeList);
    }

    method AppendSlot() returns (id: int)
      requires PoolOk()
      modifies this`statsChunks
      ensures PoolOk() && id !in old(InUse()) && InUse() == old(InUse()) + {id}
    {
      ghost var was := statsChunks;
      if |statsChunks| == 0 || |statsChunks[|statsChunks| - 1]| == CHUNK {
        id := CHUNK * |statsChunks|;
        statsChunks := statsChunks + [[RegionStats(true, [])]];
      } else {
        var last := |statsChunks| - 1;
        id := CHUNK * last + |statsChunks[last]|;
        statsChunks := statsChunks[last := statsChunks[last] + [RegionStats(true, [])]];
      }
      assert id == Slots(was) && Slots(statsChunks) == id + 1;
      forall i | 0 <= i < Slots(statsChunks)
        ensures ValidSlot(statsChunks, i)
        ensures i == id ==> statsChunks[i / CHUNK][i % CHUNK].isActive
        ensures i < id ==> statsChunks[i / CHUNK][i % CHUNK] == was[i / CHUNK][i % CHUNK]
      {
        SlotsInOrder(statsChunks, i);
        SlotsInOrder(was, i);
      }
    }

    /** Takes a slot off the free list, or appends one. */
    method AllocateStats() returns (id: int)
      requires PoolOk()
      modifies this`statsChunks, this`freeList
      ensures PoolOk() && id !in old(InUse()) && InUse() == old(InUse()) + {id}
    {
      if |freeList| > 0 {
        id := PopFree();
      } else {
        id := AppendSlot();
      }
    }

    /** Puts a slot back. */
    method FreeStats(id: int)
      requires PoolOk() && id in InUse()
      modifies this`statsChunks, this`freeList
      ensures PoolOk() && InUse() == old(InUse()) - {id}
    {
      SetActive(id, false);
      freeList := freeList + [id];
    }

    // ---------- The tree ----------

    ghost function KidsOf(): Kids
      reads this`nodes, nodes
    {
      map n | n in nodes :: n.children
    }

    ghost function SlotsOf(): map<HeatNode, int>
      reads this`nodes, nodes
    {
      map n | n in nodes :: n.statsID
    }

    ghost predicate Linked()
      reads this, nodes
    {
      && root.pathSegment == [] && root.rangeStart == [] && root.rangeEnd == []
      && (forall n | n in nodes :: n.isLeaf <==> n.children == [])
      && TreeShaped(KidsOf(), root, depth)
    }

    ghost predicate Owned()
      reads this, nodes
    {
      PoolOk() && SlotsOwned(KidsOf(), SlotsOf(), InUse())
    }

    ghost predicate Routed()
      reads this, nodes
    {
      forall n | n in nodes && !n.isLeaf :: Routes(n, n.children, n.splitRangeKey)
    }

    lemma ChildrenOf(n: HeatNode)
      requires Linked() && n in nodes
      ensures n.isLeaf <==> n.children == []
      ensures forall c | c in n.children :: c in nodes && c.level == n.level + 1 <= depth
    {
      hide TreeShaped;
      KnownChildren(KidsOf(), root, depth, n);
      ChildLevels(KidsOf(), root, depth, n);
    }

    lemma ShapeOf()
      requires Linked()
      ensures TreeShaped(KidsOf(), root, depth)
    {
    }

    lemma StaysAsIs(n: HeatNode, cold: HeatNode -> bool)
      requires Linked() && n in nodes && (n.isLeaf || !cold(n) || exists c :: c in n.children && !c.isLeaf)
      ensures Cooled(KidsOf(), n, cold)
    {
      ChildrenOf(n);
    }

    lemma ChildrenOnce(n: HeatNode)
      requires Linked() && n in nodes
      ensures Once(n.children)
    {
      assert Once(KidsOf()[n]);
    }

    lemma RoutedChild(n: HeatNode, key: Key)
      requires Routed() && n in nodes && !n.isLeaf && n.Belongs(key)
      ensures var rest := key[|n.pathSegment|..];
              n.children != [] && n.children[At(n.splitRangeKey, |n.children|, rest)].Belongs(rest)
    {
      hide Less;
      var rest := key[|n.pathSegment|..];
      assert n.pathSegment == [] ==> rest == key;
      assert Routes(n, n.children, n.splitRangeKey) && n.Holds(rest);
    }

    /** The child that the split keys pick for the rest of a key. */
    method Descend(n: HeatNode, rest: Key) returns (child: HeatNode)
      requires Linked() && n in nodes && !n.isLeaf
      ensures child in n.children && child in nodes && child.level == n.level + 1 <= depth
      ensures n.children != [] && child == n.children[At(n.splitRangeKey, |n.children|, rest)]
      ensures Routed() && n.Belongs(n.pathSegment + rest) ==> child.Belongs(rest)
    {
      hide Linked, Routed, Less, Cell, Search, IsPrefix;
      ChildrenOf(n);
      var idx := FindCell(n.splitRangeKey, rest);
      if idx >= |n.children| {
        idx := |n.children| - 1;
      }
      child := n.children[idx];
      if Routed() && n.Belongs(n.pathSegment + rest) {
        assert (n.pathSegment + rest)[|n.pathSegment|..] == rest;
        RoutedChild(n, n.pathSegment + rest);
      }
    }

    /** SearchLeaf: down the tree, taking the path of each node off the key. The leaf it reaches is at
        the end of a chain of nodes whose paths together begin the key, and what is left of the key
        above the leaf lies in the leaf's range. */
    method SearchLeaf(key: Key) returns (leaf: HeatNode?, ghost chain: seq<HeatNode>)
      requires Linked()
      ensures leaf != null ==> leaf in nodes && leaf.isLeaf && IsChain(chain) && chain[|chain| - 1] == leaf
      ensures leaf != null ==> PathsOf(chain) <= key && Follows(chain, key)
      ensures Routed() ==> leaf != null && leaf.Belongs(key[|PathsOf(chain[..|chain| - 1])|..])
    {
      hide *;
      var current, suffix := root, key;
      RootTakesAll(key);
      chain := [root];
      OneInChain(key);
      while true
        invariant current in nodes && (Routed() ==> current.Belongs(suffix))
        invariant Descended(chain, current, suffix, key)
        decreases depth - current.level
      {
        if !IsPrefix(current.pathSegment, suffix) {
          NoPrefix(current, suffix);
          return null, chain;
        }
        OneSegment(current.pathSegment, suffix);
        var rest := suffix[|current.pathSegment|..];
        if current.isLeaf {
          Arrived(chain, current, suffix, key);
          return current, chain;
        }
        var child := Descend(current, rest);
        OneFurther(chain, current, suffix, key, child);
        current, suffix, chain := child, rest, chain + [child];
      }
    }

    /** The search stands at the end of the chain, and `suffix` is left of the key above it. */
    ghost predicate Descended(chain: seq<HeatNode>, current: HeatNode, suffix: Key, key: Key)
      reads this, chain
    {
      && IsChain(chain) && chain[|chain| - 1] == current && PathsOf(chain[..|chain| - 1]) + suffix == key
      && Follows(chain, key)
    }

    /** Each node but the last hands the key, without the paths so far, to the child that its split keys
        pick. */
    static ghost predicate Follows(chain: seq<HeatNode>, key: Key)
      reads chain
    {
      forall i | 0 <= i < |chain| - 1 :: HandsOn(chain, key, i)
    }

    static ghost predicate HandsOn(chain: seq<HeatNode>, key: Key, i: nat)
      requires i < |chain| - 1
      reads chain
    {
      var n, passed := chain[i], PathsOf(chain[..i + 1]);
      && passed <= key && n.children != []
      && chain[i + 1] == n.children[At(n.splitRangeKey, |n.children|, key[|passed|..])]
    }

    lemma NoPrefix(n: HeatNode, suffix: Key)
      requires !IsPrefix(n.pathSegment, suffix)
      ensures !n.Belongs(suffix)
    {
    }

    lemma OneInChain(key: Key)
      ensures Descended([root], root, key, key)
    {
      assert [root][..0] == [] && PathsOf([]) + key == key;
    }

    lemma OneSegment(segment: Key, suffix: Key)
      requires IsPrefix(segment, suffix)
      ensures |segment| <= |suffix| && segment + suffix[|segment|..] == suffix
    {
    }

    lemma Arrived(chain: seq<HeatNode>, n: HeatNode, suffix: Key, key: Key)
      requires Descended(chain, n, suffix, key) && IsPrefix(n.pathSegment, suffix)
      ensures IsChain(chain) && chain != [] && chain[|chain| - 1] == n && PathsOf(chain) <= key && Follows(chain, key)
      ensures |PathsOf(chain[..|chain| - 1])| <= |key| && key[|PathsOf(chain[..|chain| - 1])|..] == suffix
    {
      OneSegment(n.pathSegment, suffix);
      var passed, rest := PathsOf(chain[..|chain| - 1]), suffix[|n.pathSegment|..];
      assert passed + (n.pathSegment + rest) == (passed + n.pathSegment) + rest;
    }

    lemma OneFurther(chain: seq<HeatNode>, n: HeatNode, suffix: Key, key: Key, child: HeatNode)
      requires Descended(chain, n, suffix, key) && IsPrefix(n.pathSegment, suffix) && child in n.children
      requires child == n.children[At(n.splitRangeKey, |n.children|, suffix[|n.pathSegment|..])]
      ensures Descended(chain + [child], child, suffix[|n.pathSegment|..], key)
    {
      OneSegment(n.pathSegment, suffix);
      var passed, rest := PathsOf(chain[..|chain| - 1]), suffix[|n.pathSegment|..];
      assert passed + (n.pathSegment + rest) == (passed + n.pathSegment) + rest;
      var more := chain + [child];
      assert more[..|chain|] == chain && chain[..|chain|] == chain;
      assert PathsOf(chain) == passed + n.pathSegment && key[|PathsOf(chain)|..] == rest;
      forall i | 0 <= i < |more| - 1 ensures HandsOn(more, key, i) {
        assert more[..i + 1] == chain[..i + 1];
        assert i < |chain| - 1 ==> HandsOn(chain, key, i);
      }
    }

    ghost predicate IsChain(chain: seq<HeatNode>)
      reads this, chain
    {
      && chain != [] && chain[0] == root
      && forall i | 0 < i < |chain| :: chain[i] in chain[i - 1].children
    }

    lemma RootTakesAll(key: Key)
      requires Linked()
      ensures root in nodes && root.Belongs(key)
    {
      hide TreeShaped;
      RootIn(KidsOf(), root, depth);
      EmptyIsLeast(key);
    }

    static ghost function IdsOf(children: seq<HeatNode>): set<int>
      reads children
    {
      set c | c in children :: c.statsID
    }

    static lemma NoIds()
      ensures IdsOf([]) == {}
    {
    }

    static lemma IdIn(children: seq<HeatNode>)
      ensures forall i | 0 <= i < |children| :: children[i].statsID in IdsOf(children)
    {
      forall i | 0 <= i < |children| ensures children[i].statsID in IdsOf(children) {
        assert children[i] in children;
      }
    }

    static lemma IdsMore(children: seq<HeatNode>, child: HeatNode)
      ensures IdsOf(children + [child]) == IdsOf(children) + {child.statsID}
    {
      assert child in children + [child];
      forall c | c in children ensures c in children + [child] {
      }
    }

    /** splitReservoir: a slot and a node for each span of the layout. */
    method MakeChildren(level: nat, spans: seq<Span>) returns (children: seq<HeatNode>)
      requires PoolOk()
      modifies this`statsChunks, this`freeList
      ensures PoolOk() && |children| == |spans|
      ensures forall i | 0 <= i < |spans| :: fresh(children[i]) && Matches(children[i], level, spans[i])
      ensures forall i, j | 0 <= i < j < |spans| :: children[i] != children[j] && children[i].statsID != children[j].statsID
      ensures forall i | 0 <= i < |spans| :: children[i].statsID !in old(InUse())
      ensures InUse() == old(InUse()) + IdsOf(children)
    {
      hide PoolOk, InUse, IdsOf;
      children := [];
      NoIds();
      for k := 0 to |spans|
        invariant PoolOk() && |children| == k
        invariant forall i | 0 <= i < k :: fresh(children[i]) && Matches(children[i], level, spans[i])
        invariant forall i, j | 0 <= i < j < k :: children[i] != children[j] && children[i].statsID != children[j].statsID
        invariant forall i | 0 <= i < k :: children[i].statsID !in old(InUse())
        invariant InUse() == old(InUse()) + IdsOf(children)
      {
        var id := AllocateStats();
        var child := new HeatNode(level, spans[k].start, spans[k].end, spans[k].path, id);
        IdsMore(children, child);
        IdIn(children);
        children := children + [child];
      }
    }

    static ghost predicate Matches(c: HeatNode, level: nat, s: Span)
      reads c
    {
      && c.isLeaf && c.children == [] && c.level == level
      && c.rangeStart == s.start && c.rangeEnd == s.end && c.pathSegment == s.path
    }

    /** The leaf `n` becomes a routing node. */
    method BecomeNode(n: HeatNode, children: seq<HeatNode>, splits: seq<Key>)
      requires n in nodes && n.children == [] && forall c | c in children :: c !in nodes && c.level == n.level + 1 && c.children == []
      modifies this`nodes, this`depth, n
      ensures nodes == old(nodes) + (set c | c in children)
      ensures n.isLeaf == false && n.children == children && n.splitRangeKey == splits && n.statsID == -1
      ensures Grows(old(KidsOf()), n, children, KidsOf())
      ensures SlotsOf().Keys == nodes && SlotsOf()[n] == -1 && old(depth) <= depth && n.level + 1 <= depth
      ensures forall m | m in old(nodes) && m != n :: SlotsOf()[m] == old(SlotsOf())[m]
      ensures forall c | c in children :: SlotsOf()[c] == old(c.statsID)
    {
      n.isLeaf, n.children, n.splitRangeKey, n.statsID := false, children, splits, -1;
      nodes := nodes + (set c | c in children);
      if depth < n.level + 1 {
        depth := n.level + 1;
      }
    }

    method GiveBack(n: HeatNode, children: seq<HeatNode>, ghost before: set<int>)
      requires PoolOk() && InUse() == before + IdsOf(children)
      requires n.statsID in before && forall c | c in children :: c.statsID !in before
      modifies this`statsChunks, this`freeList
      ensures PoolOk() && InUse() == before - {n.statsID} + IdsOf(children)
    {
      hide PoolOk, InUse;
      FreeStats(n.statsID);
    }

    /** Puts new children under the leaf `n`, which gives its slot back. */
    method Attach(n: HeatNode, children: seq<HeatNode>, splits: seq<Key>, ghost before: set<int>)
      requires Linked() && SlotsOwned(KidsOf(), SlotsOf(), before) && n in nodes && n.isLeaf
      requires PoolOk() && InUse() == before + IdsOf(children)
      requires children != [] && Once(children)
      requires forall c | c in children :: c !in nodes && c.isLeaf && c.children == [] && c.level == n.level + 1 && c.statsID !in before
      requires forall c, d | c in children && d in children && c.statsID == d.statsID :: c == d
      modifies this`nodes, this`depth, this`statsChunks, this`freeList, n
      ensures Linked() && Owned()
      ensures nodes == old(nodes) + (set c | c in children)
      ensures !n.isLeaf && n.children == children && n.splitRangeKey == splits
    {
      hide TreeShaped, SlotsOwned, PoolOk, Once, InUse, Grows;
      ghost var kids, slots := KidsOf(), SlotsOf();
      LeafSlot(kids, slots, before, n);
      GiveBack(n, children, before);
      BecomeNode(n, children, splits);
      GrowShape(kids, root, old(depth), n, children, KidsOf(), depth);
      GrowSlots(kids, slots, before, n, children, KidsOf(), SlotsOf(), InUse());
    }

    /** Evolve: a full leaf becomes a routing node over the ranges of the chosen prefixes. */
    method Evolve(n: HeatNode, ps: seq<Key>)
      requires Linked() && Owned() && n in nodes && n.isLeaf
      modifies this`nodes, this`depth, this`statsChunks, this`freeList, n
      ensures Linked() && Owned()
      ensures old(Routed()) ==> (Routed() <==> ps == [] || SplitsWell(n, ps))
      ensures nodes == old(nodes) + (set c | c in n.children) && fresh(nodes - old(nodes))
      ensures n.isLeaf <==> ps == []
      ensures ps != [] ==> ChildForEach(n.children, ps)
      ensures ps != [] && GoodPrefixes(ps) ==> SentByPrefix(n, ps)
    {
      hide TreeShaped, SlotsOwned, PoolOk, InUse, LayoutOf, Routable, Routes, Routed, IdsOf, GoodPrefixes, GroupsReached,
           ChildForEach, OneForEach, SentByPrefix;
      if ps == [] {
        assert (set c | c in n.children) == {};
        return;
      }
      ghost var before := InUse();
      var spans, splits := Layout(n.pathSegment, n.rangeStart, n.rangeEnd, ps);
      var children := MakeChildren(n.level + 1, spans);
      assert forall i | 0 <= i < |children| :: children[i] in children;
      Attach(n, children, splits, before);
      SpansRoute(n, spans, children, splits);
      SpansOfEach(spans, children, ps);
      if GoodPrefixes(ps) {
        SpansSend(n, spans, children, splits, ps);
      }
      if old(Routed()) {
        StillRouted(n, children);
      }
    }

    twostate lemma StillRouted(n: HeatNode, new children: seq<HeatNode>)
      requires old(Routed()) && n in old(nodes) && nodes == old(nodes) + (set c | c in children)
      requires (forall c | c in children :: c.isLeaf) && forall m | m in old(nodes) && m != n :: unchanged(m)
      requires !n.isLeaf
      ensures Routed() <==> Routes(n, n.children, n.splitRangeKey)
    {
      hide Routes;
    }

    /** Gives the slots of cold leaves back. */
    method FreeChildren(children: seq<HeatNode>)
      requires PoolOk() && Once(children)
      requires forall c | c in children :: c.statsID in InUse()
      requires forall c, d | c in children && d in children && c.statsID == d.statsID :: c == d
      modifies this`statsChunks, this`freeList, children
      ensures PoolOk() && InUse() == old(InUse()) - (set c | c in children :: old(c.statsID))
      ensures forall c | c in children :: c.statsID == -1 && c.children == old(c.children) && c.isLeaf == old(c.isLeaf)
    {
      hide PoolOk;
      for i := 0 to |children|
        invariant PoolOk() && InUse() == old(InUse()) - (set c | c in children[..i] :: old(c.statsID))
        invariant forall c | c in children[..i] :: c.statsID == -1
        invariant forall c | c in children[i..] :: c.statsID == old(c.statsID)
        invariant forall c | c in children :: c.children == old(c.children) && c.isLeaf == old(c.isLeaf)
      {
        var c := children[i];
        FreshAt(children, i);
        FreeStats(c.statsID);
        c.statsID := -1;
      }
      assert children[..|children|] == children;
    }

    /** The routing node `n` becomes a leaf again. */
    method BecomeLeaf(n: HeatNode)
      requires n in nodes && n.children != [] && n !in n.children
      requires forall c | c in n.children :: c in nodes && c.children == []
      modifies this`nodes, n
      ensures nodes == old(nodes) - (set c | c in old(n.children))
      ensures n.isLeaf && n.children == [] && n.splitRangeKey == [] && n.statsID == old(n.statsID)
      ensures Shrinks(old(KidsOf()), n, KidsOf())
    {
      ghost var gone := set c | c in n.children;
      n.isLeaf, n.children, n.splitRangeKey := true, [], [];
      nodes := nodes - gone;
    }

    /** Frees the slots of the children of `n` and drops them. */
    method DropChildren(n: HeatNode)
      requires PoolOk() && n in nodes && n.children != [] && n !in n.children && Once(n.children)
      requires forall c | c in n.children :: c in nodes && c.children == [] && c.statsID in InUse()
      requires forall c, d | c in n.children && d in n.children && c.statsID == d.statsID :: c == d
      modifies this`nodes, this`statsChunks, this`freeList, n, n.children
      ensures PoolOk() && InUse() == old(InUse()) - (set c | c in old(n.children) :: old(c.statsID))
      ensures nodes == old(nodes) - (set c | c in old(n.children))
      ensures n.isLeaf && n.children == [] && n.splitRangeKey == [] && n.statsID == old(n.statsID)
      ensures Shrinks(old(KidsOf()), n, KidsOf())
    {
      hide PoolOk, InUse, Shrinks, Once;
      ghost var kids := KidsOf();
      FreeChildren(n.children);
      assert KidsOf() == kids;
      BecomeLeaf(n);
    }

    /** Folds a routing node whose children have all gone cold. */
    method Collapse(n: HeatNode)
      requires Linked() && Owned() && n in nodes && !n.isLeaf && forall c | c in n.children :: c.isLeaf
      modifies this`nodes, this`statsChunks, this`freeList, n, n.children
      ensures Linked() && Owned() && nodes == old(nodes) - (set c | c in old(n.children)) && n.isLeaf
      ensures Shrinks(old(KidsOf()), n, KidsOf())
      ensures old(Routed()) ==> Routed()
    {
      hide TreeShaped, SlotsOwned, PoolOk, InUse, Shrinks, Routes, Once;
      ghost var kids, slots, inUse := KidsOf(), SlotsOf(), InUse();
      KnownChildren(kids, root, depth, n);
      ChildSlots(kids, slots, inUse, root, depth, n);
      DropChildren(n);
      ghost var shrunk := KidsOf();
      ShrinkShape(kids, root, depth, n, shrunk);
      TakeSlot(n);
      Refold(kids, slots, inUse, n);
    }

    /** The folded leaf gets a slot of its own. */
    method TakeSlot(n: HeatNode)
      requires PoolOk() && n in nodes
      modifies this`statsChunks, this`freeList, n`statsID
      ensures PoolOk() && n.statsID !in old(InUse()) && InUse() == old(InUse()) + {n.statsID} && KidsOf() == old(KidsOf())
    {
      hide PoolOk, InUse;
      var id := AllocateStats();
      n.statsID := id;
    }

    /** The post-order part of EpochDecayAndSnapshot below `node`: which nodes have gone cold is
        up to their statistics. */
    method Decay(node: HeatNode, cold: HeatNode -> bool)
      requires Linked() && Owned() && node in nodes
      modifies this`nodes, this`statsChunks, this`freeList, nodes
      ensures Linked() && Owned() && nodes <= old(nodes)
      ensures old(Routed()) ==> Routed()
      ensures forall m | m in old(nodes) && m.level <= node.level :: m in nodes
      ensures forall m | m in old(nodes) && m.level < node.level :: m.children == old(m.children)
      ensures forall m | m in old(nodes) && m.level == node.level && m != node :: m.children == old(m.children)
      ensures Decayed(old(KidsOf()), KidsOf(), [node], cold)
      decreases depth - node.level
    {
      hide Linked, Owned, Routed, Decayed, TreeShaped, Cooled, Once, Shrinks;
      ghost var kids := KidsOf();
      ShapeOf();
      ChildrenOf(node);
      DecayedNone(kids, cold);
      if node.isLeaf {
        StaysAsIs(node, cold);
        DecayedUp(kids, kids, root, depth, node, cold);
        return;
      }
      var children := node.children;
      ChildrenOnce(node);
      for i := 0 to |children|
        invariant Linked() && Owned() && nodes <= old(nodes) && node in nodes && node.children == children
        invariant old(Routed()) ==> Routed()
        invariant forall m | m in old(nodes) && m.level <= node.level :: m in nodes && m.children == old(m.children)
        invariant forall c | c in children :: c in nodes && c.level == node.level + 1 <= depth
        invariant TreeShaped(kids, root, depth) && Decayed(kids, KidsOf(), children[..i], cold)
      {
        ghost var mid := KidsOf();
        ShapeOf();
        Decay(children[i], cold);
        ShapeOf();
        FreshAt(children, i);
        DecayedMore(kids, mid, KidsOf(), root, depth, children[..i], children[i], cold);
      }
      assert children[..|children|] == children;
      ghost var mid := KidsOf();
      ShapeOf();
      ChildrenOf(node);
      var allLeaves := AllLeaves(children);
      if allLeaves && cold(node) {
        Collapse(node);
        DecayedFold(kids, mid, KidsOf(), root, depth, node, cold);
      } else {
        StaysAsIs(node, cold);
        DecayedUp(kids, mid, root, depth, node, cold);
      }
    }

    static method AllLeaves(children: seq<HeatNode>) returns (all: bool)
      ensures all <==> forall c | c in children :: c.isLeaf
    {
      for i := 0 to |children|
        invariant forall c | c in children[..i] :: c.isLeaf
      {
        assert children[..i + 1] == children[..i] + [children[i]];
        if !children[i].isLeaf {
          return false;
        }
      }
      assert children[..|children|] == children;
      return true;
    }

    /** Any run of samples, each of which may split the leaf it reaches on the prefixes given with
        it, and of decays: with good prefixes a search from then on always reaches a leaf, and
        whatever the prefixes, the leaves own their slots. */
    method Run(events: seq<Event>)
      requires Linked() && Owned()
      modifies this`nodes, this`depth, this`statsChunks, this`freeList, nodes
      ensures Linked() && Owned()
      ensures old(Routed()) && (forall e | e in events && e.Sample? :: e.prefixes == [] || GoodPrefixes(e.prefixes)) ==> Routed()
    {
      hide TreeShaped, SlotsOwned, PoolOk, InUse, Routes, GoodPrefixes, SplitsWell;
      ghost var good := Routed() && forall e | e in events && e.Sample? :: e.prefixes == [] || GoodPrefixes(e.prefixes);
      for i := 0 to |events|
        invariant Linked() && Owned() && fresh(nodes - old(nodes))
        invariant good ==> Routed()
      {
        assert events[i] in events;
        match events[i]
        case Sample(key, ps) =>
          var leaf, _ := SearchLeaf(key);
          if leaf != null {
            if good && ps != [] {
              GoodSplitsWell(leaf, ps);
            }
            Evolve(leaf, ps);
          }
        case DecayAll(cold) =>
          RootIn(KidsOf(), root, depth);
          Decay(root, cold);
      }
    }

    /** The slots after a fold. */
    lemma Refold(kids: Kids, slots: map<HeatNode, int>, inUse: set<int>, n: HeatNode)
      requires SlotsOwned(kids, slots, inUse) && Shrinks(kids, n, KidsOf()) && kids[n] != []
      requires forall m | m in nodes && m != n :: m in slots && m.statsID == slots[m]
      requires n.statsID !in inUse - (set c | c in kids[n] :: slots[c])
      requires InUse() == inUse - (set c | c in kids[n] :: slots[c]) + {n.statsID}
      ensures SlotsOwned(KidsOf(), SlotsOf(), InUse())
    {
      hide SlotsOwned, Shrinks, InUse;
      ShrinkSlots(kids, slots, inUse, n, KidsOf(), SlotsOf(), InUse());
    }
  }

  lemma ChildSlots(kids: Kids, slots: map<HeatNode, int>, inUse: set<int>, root: HeatNode, depth: nat, n: HeatNode)
    requires TreeShaped(kids, root, depth) && SlotsOwned(kids, slots, inUse) && n in kids
    requires forall c | c in kids[n] :: c in kids && kids[c] == []
    ensures Once(kids[n]) && n !in kids[n]
    ensures forall c | c in kids[n] :: slots[c] in inUse
    ensures forall c, d | c in kids[n] && d in kids[n] && slots[c] == slots[d] :: c == d
  {
  }

  lemma RootIn(kids: Kids, root: HeatNode, depth: nat)
    requires TreeShaped(kids, root, depth)
    ensures root in kids
  {
  }

  lemma ChildLevels(kids: Kids, root: HeatNode, depth: nat, n: HeatNode)
    requires TreeShaped(kids, root, depth) && n in kids
    ensures forall c | c in kids[n] :: c.level == n.level + 1 <= depth
  {
    hide OneParent, AllReached;
    assert forall c | c in kids[n] :: c in kids;
  }

  lemma KnownChildren(kids: Kids, root: HeatNode, depth: nat, n: HeatNode)
    requires TreeShaped(kids, root, depth) && n in kids
    ensures forall c | c in kids[n] :: c in kids && c != root
  {
    hide OneParent, AllReached;
  }

  lemma FreshAt(s: seq<HeatNode>, i: nat)
    requires Once(s) && i < |s|
    ensures s[i] !in s[..i] && s[i] !in s[i + 1..] && s[..i + 1] == s[..i] + [s[i]] && s[i..] == [s[i]] + s[i + 1..]
  {
  }

  /** The bounds of the keys that are left of a key behind the node's path. */
  function StartOf(n: HeatNode): Key {
    if n.pathSegment == [] then n.rangeStart else []
  }

  function EndOf(n: HeatNode): Key {
    if n.pathSegment == [] then n.rangeEnd else []
  }

  /** Each prefix is the path of one child, in the same order, and the other children have none. */
  ghost predicate ChildForEach(children: seq<HeatNode>, ps: seq<Key>) {
    exists at: seq<nat> :: ChildrenAt(children, ps, at)
  }

  ghost predicate ChildrenAt(children: seq<HeatNode>, ps: seq<Key>, at: seq<nat>) {
    && |at| == |ps| && (forall i, j | 0 <= i < j < |at| :: at[i] < at[j])
    && (forall i | 0 <= i < |at| :: at[i] < |children| && children[at[i]].pathSegment == ps[i])
    && forall k | 0 <= k < |children| && children[k].pathSegment != [] :: k in at
  }

  /** A key of the node that starts with a prefix goes on to the child with that path, and any other to
      one without a path. */
  ghost predicate SentByPrefix(n: HeatNode, ps: seq<Key>)
    reads n
  {
    n.children != [] && forall k: Key | n.Holds(k) ::
      var c := n.children[At(n.splitRangeKey, |n.children|, k)];
      && (forall i | 0 <= i < |ps| && IsPrefix(ps[i], k) :: c.pathSegment == ps[i])
      && (c.pathSegment != [] ==> c.pathSegment in ps && IsPrefix(c.pathSegment, k))
  }

  lemma SpansOfEach(spans: seq<Span>, children: seq<HeatNode>, ps: seq<Key>)
    requires |children| == |spans| && OneForEach(spans, ps)
    requires forall i | 0 <= i < |spans| :: children[i].pathSegment == spans[i].path
    ensures ChildForEach(children, ps)
  {
    hide Next;
    var at: seq<nat> :| OneEach(spans, ps, at);
    assert ChildrenAt(children, ps, at);
  }

  lemma SpansSend(n: HeatNode, spans: seq<Span>, children: seq<HeatNode>, splits: seq<Key>, ps: seq<Key>)
    requires |children| == |spans| && n.children == children && n.splitRangeKey == splits
    requires forall i | 0 <= i < |spans| :: children[i].pathSegment == spans[i].path
    requires GroupsReached(n.pathSegment, n.rangeStart, n.rangeEnd, ps, spans, splits)
    ensures SentByPrefix(n, ps)
  {
    hide Less, Search, IsPrefix;
  }

  /** A split routes every key of the node exactly if the search does at its start and split keys. */
  lemma SpansRoute(n: HeatNode, spans: seq<Span>, children: seq<HeatNode>, splits: seq<Key>)
    requires |children| == |spans| > 0
    requires forall i | 0 <= i < |spans| ::
        children[i].rangeStart == spans[i].start && children[i].rangeEnd == spans[i].end && children[i].pathSegment == spans[i].path
    ensures Routes(n, children, splits) <==> Routable(spans, splits, StartOf(n), EndOf(n))
  {
    hide Less, Search, Routable, IsPrefix;
    RoutesExactly(spans, splits, StartOf(n), EndOf(n));
    forall k: Key ensures n.Holds(k) <==> InNode(StartOf(n), EndOf(n), k) {
      EmptyIsLeast(k);
    }
    forall k: Key ensures children[At(splits, |children|, k)].Belongs(k) <==> Takes(spans[At(splits, |spans|, k)], k) {
    }
  }

  /** The finite condition on the prefixes that a leaf is split on. */
  ghost predicate SplitsWell(n: HeatNode, ps: seq<Key>)
    requires ps != []
  {
    var (spans, splits) := LayoutOf(n.pathSegment, n.rangeStart, n.rangeEnd, ps);
    Routable(spans, splits, StartOf(n), EndOf(n))
  }

  /** Good prefixes meet it, for any node. */
  lemma GoodSplitsWell(n: HeatNode, ps: seq<Key>)
    requires ps != [] && GoodPrefixes(ps)
    ensures SplitsWell(n, ps)
  {
    hide Less, Search, Routable, IsPrefix, GoodPrefixes, Tiles, Bounded, LayoutTo;
    var (spans, splits) := LayoutOf(n.pathSegment, n.rangeStart, n.rangeEnd, ps);
    GoodTiles(n.pathSegment, n.rangeStart, n.rangeEnd, ps, |ps|);
    RoutesExactly(spans, splits, StartOf(n), EndOf(n));
    forall k: Key | InNode(StartOf(n), EndOf(n), k) ensures Takes(spans[At(splits, |spans|, k)], k) {
      TilesRoute(n.pathSegment, n.rangeStart, n.rangeEnd, spans, splits, k);
    }
  }
}
