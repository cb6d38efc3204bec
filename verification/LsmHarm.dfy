/** Runs in which a deleted or expired key comes back: after an eviction past a level that holds an
    older version, and after an expiry that the flush could not foresee. Every compaction in them
    goes to the base level that the sizes of the levels give, and takes the table that it is to take. */
module LsmHarm {
  import opened Keys
  import opened Compaction
  import opened Snapshots
  import opened Lsm
  import opened LsmSafety
  import opened BaseLevel
  import opened Wrappers

  // ---------- Sizes, and what is chosen by them ----------

  /** The value of a version stands for the room it takes. */
  function Weight(e: Entry): nat {
    if e.value < 0 then 0 else e.value
  }

  function Weights(es: seq<Entry>): nat {
    if es == [] then 0 else Weight(es[0]) + Weights(es[1..])
  }

  /** getTotalSize. */
  ghost function Total(tables: set<Table>): nat {
    if tables == {} then 0
    else
      var t :| t in tables;
      Weights(t.entries) + Total(tables - {t})
  }

  ghost function Sizes(tree: Tree): (sizes: seq<nat>)
    ensures |sizes| == |tree.levels| + 1 && forall n | 0 <= n <= |tree.levels| :: sizes[n] == Total(Level(tree, n))
  {
    seq(|tree.levels| + 1, n requires 0 <= n <= |tree.levels| => Total(Level(tree, n)))
  }

  /** No other table has a smaller maximal version (sortByHeuristic). */
  ghost predicate Oldest(t: Table, tables: set<Table>) {
    forall u, e | u in tables && u != t && e in t.entries :: exists f :: f in u.entries && e.key.ts < f.key.ts
  }

  /** The least size at which L99 is evicted from. */
  const HOT_LIMIT: nat := 50 * 0x10_0000

  /** A step that the compactors may take: the base level is that of levelTargets, a level from 1 on
      is compacted when it is full, L99 when it is too large, and the oldest table of it goes. */
  ghost predicate Chosen(o: Sizing, s: System, e: Event)
    requires SizingOk(o) && Enabled(s, e)
  {
    var tree := s.tree;
    match e
    case CompactL0(_, base, _) => base == BaseOf(o, Sizes(tree))
    case CompactLevel(n, t, base, _) =>
      && base == BaseOf(o, Sizes(tree)) && Oldest(t, Level(tree, n))
      && Total(Level(tree, n)) >= Target(o, Sizes(tree), n)
    case Evict(t, base, _) =>
      && base == BaseOf(o, Sizes(tree)) && Oldest(t, tree.hotOrd)
      && Total(tree.hotOrd) > HOT_LIMIT && Total(tree.hotOrd) > Total(Level(tree, |tree.levels|)) / 10
    case _ => true
  }

  ghost predicate AllChosen(o: Sizing, maxLevels: nat, events: seq<Event>)
    requires SizingOk(o) && IsRun(maxLevels, events)
    decreases |events|
  {
    events != [] ==>
      && AllChosen(o, maxLevels, events[..|events| - 1])
      && Chosen(o, After(maxLevels, events[..|events| - 1]), events[|events| - 1])
  }

  // ---------- Going from state to state ----------

  /** The events are enabled and chosen one after the other from `s` on, and end in `t`. */
  ghost predicate Leads(o: Sizing, s: System, events: seq<Event>, t: System)
    requires SizingOk(o)
    decreases |events|
  {
    if events == [] then s == t
    else Enabled(s, events[0]) && Chosen(o, s, events[0]) && Leads(o, Step(s, events[0]), events[1..], t)
  }

  lemma {:induction false} LeadsOn(o: Sizing, s: System, a: seq<Event>, t: System, b: seq<Event>, u: System)
    requires SizingOk(o) && Leads(o, s, a, t) && Leads(o, t, b, u)
    ensures Leads(o, s, a + b, u)
    decreases |a|
  {
    hide Enabled, Chosen, Step;
    if a == [] {
      assert a + b == b;
    } else {
      assert (a + b)[1..] == a[1..] + b;
      LeadsOn(o, Step(s, a[0]), a[1..], t, b, u);
    }
  }

  lemma OneStep(o: Sizing, s: System, e: Event)
    requires SizingOk(o) && Enabled(s, e) && Chosen(o, s, e)
    ensures Leads(o, s, [e], Step(s, e))
  {
    hide Enabled, Chosen, Step;
    assert [e][1..] == [] && Leads(o, Step(s, e), [], Step(s, e));
  }

  /** What leads on from a run is a run. */
  lemma {:induction false} LeadsRuns(o: Sizing, maxLevels: nat, done: seq<Event>, s: System, events: seq<Event>, t: System)
    requires SizingOk(o) && IsRun(maxLevels, done) && AllChosen(o, maxLevels, done) && After(maxLevels, done) == s
    requires Leads(o, s, events, t)
    ensures IsRun(maxLevels, done + events) && AllChosen(o, maxLevels, done + events) && After(maxLevels, done + events) == t
    decreases |events|
  {
    hide Enabled, Chosen, Step;
    if events == [] {
      assert done + events == done;
    } else {
      var next := done + [events[0]];
      assert next[..|done|] == done;
      assert done + events == next + events[1..];
      LeadsRuns(o, maxLevels, next, Step(s, events[0]), events[1..], t);
    }
  }

  // ---------- Tables of one version ----------

  lemma OneFile(t: Table, e: Entry)
    requires t.entries == [e]
    ensures Files({t}) == {e} && Set(t.entries) == {e} && t.Valid() && AsSet([t]) == {t}
    ensures Separate({t})
  {
    assert t in {t} && e in t.entries;
  }

  /** What a table is put on, or taken off. */
  lemma OnlyTable(t: Table)
    ensures {} + {t} == {t} && {t} + {} == {t} && {t} - {} == {t} && {t} - {t} == {} && {t} - {t} + {} == {}
  {
  }

  lemma TwoTables(t: Table, u: Table)
    requires t != u
    ensures {t} + {u} == {t, u} && {t, u} - {t} == {u}
  {
  }

  lemma Touching(t: Table, x: Entry, u: Table, y: Entry)
    requires t.entries == [x] && u.entries == [y]
    ensures TouchesRange(t, {u}) <==> x.key.user == y.key.user
  {
    assert u in {u};
  }

  /** A single version that is alive, or for which an overlap is found, comes through. */
  lemma OneKept(s: System, inputs: set<Table>, overlap: bool, x: Entry, t: Table)
    requires Files(inputs) == {x} && t.entries == [x] && (overlap || !x.dead)
    ensures Compacts(s, inputs, overlap, Job([x], {t}))
  {
    OneFile(t, x);
    var p := Keep(s.discardTs, 1, overlap);
    var (judged, keep) := Judge(p, Enter(START, x), x);
    assert [x][1..] == [] && FilterUntil(p, judged, [], None) == [];
    assert Filter(p, [x]) == Emit(Enter(START, x), x, keep) + [];
    assert keep;
    assert Set([x]) == {x};
    var o := Output(x, x.discardEarlier || x.dead);
    assert Filter(p, [x]) == [o];
    assert o in [o] && Contents([o]) == {x};
  }

  /** A dead version for which none is found goes, and what is older with it. */
  lemma Dropped(s: System, inputs: set<Table>, x: Entry, older: seq<Entry>)
    requires Files(inputs) == {x} + Set(older) && x.dead && !x.merge && x.key.ts <= s.discardTs
    requires |older| <= 1 && (older != [] ==> older[0].key.user == x.key.user && older[0].key.ts < x.key.ts)
    ensures Compacts(s, inputs, false, Job([x] + older, {}))
  {
    var p := Keep(s.discardTs, 1, false);
    var judged := Judge(p, Enter(START, x), x).0;
    assert ([x] + older)[1..] == older;
    assert older != [] ==> older[1..] == [] && Passed(p, judged, older[0]);
    assert FilterUntil(p, judged, [], None) == [];
    assert FilterUntil(p, judged, older, None) == [];
    assert Filter(p, [x] + older) == [];
    assert Set([x] + older) == {x} + Set(older) && Files({}) == {} && Contents([]) == {};
  }

  lemma TotalOne(t: Table, x: Entry)
    requires t.entries == [x]
    ensures Total({t}) == Weight(x) && Total({}) == 0
  {
    assert {t} - {t} == {} && [x][1..] == [] && Weights([]) == 0;
    var u :| u in {t};
    assert u == t;
  }

  lemma TotalTwo(t: Table, x: Entry, u: Table, y: Entry)
    requires t.entries == [x] && u.entries == [y] && t != u
    ensures Total({t, u}) == Weight(x) + Weight(y)
  {
    TotalOne(t, x);
    TotalOne(u, y);
    assert {t, u} - {t} == {u} && {t, u} - {u} == {t};
    assert [x][1..] == [] && [y][1..] == [];
  }

  lemma OlderThan(t: Table, x: Entry, u: Table, y: Entry)
    requires t.entries == [x] && u.entries == [y] && x.key.ts < y.key.ts
    ensures Oldest(t, {t, u})
  {
    assert y in u.entries;
  }

  // ---------- States between flushes ----------

  /** Two levels below level 0, and nothing in memory. */
  function State(l0: seq<Table>, l1: set<Table>, l2: set<Table>, hot: seq<Table>, hotOrd: set<Table>,
                 written: set<Entry>, discardTs: nat): System
  {
    System(Tree([{}], l0, [l1, l2], hot, hotOrd), written, discardTs)
  }

  lemma Levels(s: System, l1: set<Table>, l2: set<Table>)
    requires s.tree.levels == [l1, l2]
    ensures Level(s.tree, 0) == AsSet(s.tree.l0) && Level(s.tree, 1) == l1 && Level(s.tree, 2) == l2
    ensures ColdTables(s.tree) == AsSet(s.tree.l0) + l1 + l2
    ensures Sizes(s.tree) == [Total(AsSet(s.tree.l0)), Total(l1), Total(l2)]
  {
    var tree := s.tree;
    assert forall t | t in ColdTables(tree) :: t in Level(tree, 0) || t in Level(tree, 1) || t in Level(tree, 2);
    forall n, t | 0 <= n <= 2 && t in Level(tree, n) ensures t in ColdTables(tree) {
    }
    assert forall t | t in AsSet(tree.l0) :: t in Level(tree, 0);
    assert forall t | t in l1 :: t in Level(tree, 1);
    assert forall t | t in l2 :: t in Level(tree, 2);
  }

  /** One write goes through the memtable to the tiers it belongs to. */
  lemma Write(o: Sizing, s: System, x: Entry, hotChoice: set<Entry>, cold: seq<Table>, warm: seq<Table>)
    requires SizingOk(o) && s.tree.mem == [{}]
    requires x.key.ts >= 1 && forall h | h in s.written && h.key.user == x.key.user :: h.key.ts < x.key.ts
    requires Holds(cold, ColdPart({x}, hotChoice)) && Holds(warm, HotPart({x}, hotChoice))
    ensures Leads(o, s, [Put(x), Rotate, Flush(hotChoice, cold, warm)],
                  s.(tree := s.tree.(l0 := s.tree.l0 + cold, hot := s.tree.hot + warm), written := s.written + {x}))
  {
    hide Leads;
    var none: set<Entry> := {};
    assert none + {x} == {x};
    var put := Step(s, Put(x));
    assert put.tree.mem == [{x}];
    var rotated := Step(put, Rotate);
    assert rotated.tree.mem == [none, {x}] && rotated.tree.mem[..1] == [none];
    OneStep(o, s, Put(x));
    OneStep(o, put, Rotate);
    OneStep(o, rotated, Flush(hotChoice, cold, warm));
    LeadsOn(o, s, [Put(x)], put, [Rotate], rotated);
    LeadsOn(o, s, [Put(x)] + [Rotate], rotated, [Flush(hotChoice, cold, warm)], Step(rotated, Flush(hotChoice, cold, warm)));
    assert [Put(x)] + [Rotate] + [Flush(hotChoice, cold, warm)] == [Put(x), Rotate, Flush(hotChoice, cold, warm)];
  }

  lemma WriteCold(o: Sizing, s: System, x: Entry, t: Table)
    requires SizingOk(o) && s.tree.mem == [{}] && !x.dead && t.entries == [x]
    requires x.key.ts >= 1 && forall h | h in s.written && h.key.user == x.key.user :: h.key.ts < x.key.ts
    ensures Leads(o, s, [Put(x), Rotate, Flush({}, [t], [])],
                  s.(tree := s.tree.(l0 := s.tree.l0 + [t]), written := s.written + {x}))
  {
    hide Leads;
    OneFile(t, x);
    assert ColdPart({x}, {}) == {x} && HotPart({x}, {}) == {} && s.tree.hot + [] == s.tree.hot;
    Write(o, s, x, {}, [t], []);
  }

  lemma WriteHot(o: Sizing, s: System, x: Entry, t: Table)
    requires SizingOk(o) && s.tree.mem == [{}] && !x.dead && t.entries == [x]
    requires x.key.ts >= 1 && forall h | h in s.written && h.key.user == x.key.user :: h.key.ts < x.key.ts
    ensures Leads(o, s, [Put(x), Rotate, Flush({x}, [], [t])],
                  s.(tree := s.tree.(hot := s.tree.hot + [t]), written := s.written + {x}))
  {
    hide Leads;
    OneFile(t, x);
    assert ColdPart({x}, {x}) == {} && HotPart({x}, {x}) == {x} && s.tree.l0 + [] == s.tree.l0;
    Write(o, s, x, {x}, [], [t]);
  }

  lemma WriteDead(o: Sizing, s: System, x: Entry, t: Table, u: Table)
    requires SizingOk(o) && s.tree.mem == [{}] && x.dead && t.entries == [x] && u.entries == [x]
    requires x.key.ts >= 1 && forall h | h in s.written && h.key.user == x.key.user :: h.key.ts < x.key.ts
    ensures Leads(o, s, [Put(x), Rotate, Flush({}, [t], [u])],
                  s.(tree := s.tree.(l0 := s.tree.l0 + [t], hot := s.tree.hot + [u]), written := s.written + {x}))
  {
    hide Leads;
    OneFile(t, x);
    OneFile(u, x);
    assert ColdPart({x}, {}) == {x} && HotPart({x}, {}) == {x};
    Write(o, s, x, {}, [t], [u]);
  }

  /** The only table of level 0 goes to the base level, where no other has its key. */
  lemma DownFromL0(o: Sizing, s: System, base: nat, t: Table, x: Entry, out: Table)
    requires SizingOk(o) && s.tree.l0 == [t] && |s.tree.levels| == 2 && base == BaseOf(o, Sizes(s.tree)) && 1 <= base <= 2
    requires t.entries == [x] && out.entries == [x] && Bottom(Level(s.tree, base), {t}) == {}
    requires !x.dead || ColdOverlap(s.tree, {t}, 0, base, base)
    ensures Leads(o, s, [CompactL0(1, base, Job([x], {out}))],
                  s.(tree := SetLevel(s.tree, base, Level(s.tree, base) + {out}).(l0 := [])))
  {
    hide Leads;
    OneFile(t, x);
    var none: set<Table> := {};
    assert s.tree.l0[..1] == [t] && s.tree.l0[1..] == [] && {t} + none == {t};
    OneKept(s, {t}, ColdOverlap(s.tree, {t}, 0, base, base), x, out);
    assert Level(s.tree, base) - none + {out} == Level(s.tree, base) + {out};
    OneStep(o, s, CompactL0(1, base, Job([x], {out})));
  }

  /** The oldest table of L98 goes to L99, where no other has its key. */
  lemma DownFromHot(o: Sizing, s: System, t: Table, rest: seq<Table>, x: Entry, out: Table)
    requires SizingOk(o) && s.tree.hot == [t] + rest && t.entries == [x] && out.entries == [x] && Bottom(s.tree.hotOrd, {t}) == {}
    requires !x.dead || HotOverlap(s.tree, {t})
    ensures Leads(o, s, [CompactHot(1, Job([x], {out}))], s.(tree := s.tree.(hot := rest, hotOrd := s.tree.hotOrd + {out})))
  {
    hide Leads;
    OneFile(t, x);
    var none: set<Table> := {};
    assert s.tree.hot[..1] == [t] && s.tree.hot[1..] == rest && {t} + none == {t};
    OneKept(s, {t}, HotOverlap(s.tree, {t}), x, out);
    assert s.tree.hotOrd - none + {out} == s.tree.hotOrd + {out};
    OneStep(o, s, CompactHot(1, Job([x], {out})));
  }

  /** A table on level 0 with the same key. */
  lemma Overlaps(tree: Tree, u: Table, t: Table, x: Entry)
    requires tree.l0 == [u] && u.entries == [x] && t.entries == [x]
    ensures HotOverlap(tree, {t})
  {
    Touching(u, x, t, x);
    assert u in AsSet(tree.l0) && u in Level(tree, 0) && u in ColdTables(tree);
  }

  lemma NothingBelow(tree: Tree, inputs: set<Table>, from: nat, base: nat)
    requires |tree.levels| == 2 && (from < base ==> forall h | h in HotTables(tree) :: !TouchesRange(h, inputs))
    ensures !ColdOverlap(tree, inputs, from, 2, base)
  {
  }

  /** A table of level 1 that holds a dead version leaves with what is older on level 2. */
  lemma LevelDrops(s: System, l1: set<Table>, l2: set<Table>, t: Table, x: Entry, bottom: set<Table>, older: seq<Entry>)
    requires s.tree.levels == [l1, l2] && t in l1 && t.entries == [x] && Bottom(l2, {t}) == bottom && Files(bottom) == Set(older)
    requires x.dead && !x.merge && x.key.ts <= s.discardTs
    requires |older| <= 1 && (older != [] ==> older[0].key.user == x.key.user && older[0].key.ts < x.key.ts)
    ensures var e := CompactLevel(1, t, 1, Job([x] + older, {}));
            Enabled(s, e) && Step(s, e) == s.(tree := s.tree.(levels := [l1 - {t}, l2 - bottom]))
  {
    hide Compacts, Bottom, Files, ColdOverlap;
    OneFile(t, x);
    FilesUnion({t}, bottom);
    Dropped(s, {t} + bottom, x, older);
    NothingBelow(s.tree, {t} + bottom, 1, 1);
    assert l2 - bottom + {} == l2 - bottom;
  }

  /** A table of L99 moves to level 2, where no other has its key. */
  lemma Evicts(s: System, l1: set<Table>, l2: set<Table>, t: Table, x: Entry, out: Table)
    requires s.tree.levels == [l1, l2] && t in s.tree.hotOrd && t.entries == [x] && out.entries == [x]
    requires Bottom(l2, {t}) == {} && HotOverlap(s.tree, {t})
    ensures var e := Evict(t, 2, Job([x], {out}));
            Enabled(s, e) && Step(s, e) == s.(tree := s.tree.(levels := [l1, l2 + {out}], hotOrd := s.tree.hotOrd - {t}))
  {
    OneFile(t, x);
    OneKept(s, {t}, true, x, out);
    hide Compacts, HotOverlap, Bottom;
    OnlyTable(t);
    var none: set<Table> := {};
    assert l2 - none + {out} == l2 + {out};
  }

  /** The same dead version on level 0 and on level 2 leaves, with no such key in the hot tier. */
  lemma L0Drops(s: System, l1: set<Table>, t: Table, u: Table, x: Entry)
    requires s.tree.levels == [l1, {u}] && s.tree.l0 == [t] && t.entries == [x] && u.entries == [x]
    requires x.dead && !x.merge && x.key.ts <= s.discardTs
    requires forall h | h in HotTables(s.tree) :: !TouchesRange(h, {t} + {u})
    ensures var e := CompactL0(1, 2, Job([x], {}));
            Enabled(s, e) && Step(s, e) == s.(tree := s.tree.(l0 := [], levels := [l1, {}]))
  {
    hide Compacts, TouchesRange, Files, ColdOverlap;
    OneFile(t, x);
    OneFile(u, x);
    Touching(u, x, t, x);
    FilesUnion({t}, {u});
    assert s.tree.l0[..1] == [t] && s.tree.l0[1..] == [] && Bottom({u}, {t}) == {u};
    assert [x] + [] == [x] && Set([]) == {};
    Dropped(s, {t} + {u}, x, []);
    NothingBelow(s.tree, {t} + {u}, 0, 2);
    OnlyTable(u);
  }

  /** A table more on one of the levels, and none on level 0. */
  lemma Lowered(s: System, l1: set<Table>, l2: set<Table>, base: nat, out: Table)
    requires s.tree.levels == [l1, l2] && s.tree.mem == [{}] && 1 <= base <= 2
    ensures s.(tree := SetLevel(s.tree, base, Level(s.tree, base) + {out}).(l0 := [])) ==
            State([], if base == 1 then l1 + {out} else l1, if base == 2 then l2 + {out} else l2, s.tree.hot, s.tree.hotOrd,
                  s.written, s.discardTs)
  {
  }

  // ---------- The base level ----------

  /** The sizes of the default options. */
  const DEFAULT: Sizing := Sizing(10 * 0x10_0000, 10)

  lemma BaseIsLast(x: nat, y: nat, z: nat)
    requires z <= DEFAULT.baseLevelSize
    ensures BaseOf(DEFAULT, [x, y, z]) == 2
  {
    assert Target(DEFAULT, [x, y, z], 2) == DEFAULT.baseLevelSize;
  }

  lemma BaseIsOne(x: nat, y: nat)
    ensures BaseOf(DEFAULT, [x, y, Weight(FILLER)]) == 1
    ensures Target(DEFAULT, [x, y, Weight(FILLER)], 1) == DEFAULT.baseLevelSize
  {
    var sizes := [x, y, Weight(FILLER)];
    assert Scaled(DEFAULT, sizes, 2) == Weight(FILLER) && Scaled(DEFAULT, sizes, 1) == Weight(FILLER) / 10;
    assert Target(DEFAULT, sizes, 2) == Weight(FILLER) && Target(DEFAULT, sizes, 1) == DEFAULT.baseLevelSize;
    assert FirstBase(DEFAULT, sizes, 2) == FirstBase(DEFAULT, sizes, 1) == 1;
    assert Sink(sizes, 1) == 1;
  }

  const KEY: UserKey := 7
  const FILLER: Entry := Entry(InternalKey(1, 1), false, false, false, 12 * 0x10_0000)
  const F1: Table := Table(1, [FILLER])
  const F2: Table := Table(2, [FILLER])

  /** The last level is filled, so that the base level is 1. */
  const FILL: seq<Event> := [Put(FILLER), Rotate, Flush({}, [F1], []), CompactL0(1, 2, Job([FILLER], {F2}))]

  const FILLED: System := State([], {}, {F2}, [], {}, {FILLER}, 0)

  lemma Filled()
    ensures Leads(DEFAULT, Empty(2), FILL, FILLED)
  {
    hide Leads;
    var s := State([F1], {}, {}, [], {}, {FILLER}, 0);
    assert Empty(2).tree.levels == [{}, {}] && Empty(2) == State([], {}, {}, [], {}, {}, 0);
    WriteCold(DEFAULT, Empty(2), FILLER, F1);
    var none: set<Entry> := {};
    assert none + {FILLER} == {FILLER} && [] + [F1] == [F1];
    Levels(s, {}, {});
    BaseIsLast(Total(AsSet(s.tree.l0)), 0, 0);
    DownFromL0(DEFAULT, s, 2, F1, FILLER, F2);
    Lowered(s, {}, {}, 2, F2);
    OnlyTable(F2);
    assert FILL[..3] == [Put(FILLER), Rotate, Flush({}, [F1], [])] && FILL[3..] == [CompactL0(1, 2, Job([FILLER], {F2}))];
    LeadsOn(DEFAULT, Empty(2), FILL[..3], s, FILL[3..], FILLED);
    assert FILL[..3] + FILL[3..] == FILL;
  }

  // ---------- Eviction ----------

  const OLDER: Entry := Entry(InternalKey(KEY, 3), false, false, false, 10 * 0x10_0000)
  const GONE: Entry := Entry(InternalKey(KEY, 4), true, false, false, 100)
  const CLEARED: Entry := Entry(InternalKey(1, 2), true, false, false, 100)
  const HOT: Entry := Entry(InternalKey(9, 5), false, false, false, 60 * 0x10_0000)

  const C1: Table := Table(3, [CLEARED])
  const C2: Table := Table(4, [CLEARED])
  const C3: Table := Table(5, [CLEARED])
  const K1: Table := Table(6, [OLDER])
  const K2: Table := Table(7, [OLDER])
  const G1: Table := Table(8, [GONE])
  const G2: Table := Table(9, [GONE])
  const G3: Table := Table(10, [GONE])
  const G4: Table := Table(11, [GONE])
  const H1: Table := Table(12, [HOT])
  const H2: Table := Table(13, [HOT])

  /** The older version goes to level 1, and the filler is deleted: the last level is empty again. */
  const CLEAR: seq<Event> := [
    Put(CLEARED), Rotate, Flush({}, [C1], [C2]), CompactL0(1, 1, Job([CLEARED], {C3})),
    Put(OLDER), Rotate, Flush({}, [K1], []), CompactL0(1, 1, Job([OLDER], {K2})),
    Advance(2), CompactLevel(1, C3, 1, Job([CLEARED, FILLER], {})), CompactHot(1, Job([CLEARED], {}))]

  /** The tombstone is flushed to both tiers, and its copies meet on the last level. */
  const DELETE: seq<Event> := [
    Put(GONE), Rotate, Flush({}, [G1], [G2]), Put(HOT), Rotate, Flush({HOT}, [], [H1]),
    CompactHot(1, Job([GONE], {G3})), CompactHot(1, Job([HOT], {H2})), Advance(4),
    Evict(G3, 2, Job([GONE], {G4})), CompactL0(1, 2, Job([GONE], {}))]

  const EVICTION: seq<Event> := FILL + CLEAR + DELETE

  const P1: System := State([C1], {}, {F2}, [C2], {}, {FILLER, CLEARED}, 0)
  const P2: System := State([], {C3}, {F2}, [C2], {}, {FILLER, CLEARED}, 0)
  const P3: System := State([K1], {C3}, {F2}, [C2], {}, {FILLER, CLEARED, OLDER}, 0)
  const P4: System := State([], {C3, K2}, {F2}, [C2], {}, {FILLER, CLEARED, OLDER}, 0)
  const P5: System := State([], {C3, K2}, {F2}, [C2], {}, {FILLER, CLEARED, OLDER}, 2)
  const P6: System := State([], {K2}, {}, [C2], {}, {FILLER, CLEARED, OLDER}, 2)
  const P7: System := State([], {K2}, {}, [], {}, {FILLER, CLEARED, OLDER}, 2)

  lemma ClearWrites()
    ensures Leads(DEFAULT, FILLED, CLEAR[..3], P1) && Leads(DEFAULT, P2, CLEAR[4..7], P3)
  {
    hide Leads;
    WriteDead(DEFAULT, FILLED, CLEARED, C1, C2);
    WriteCold(DEFAULT, P2, OLDER, K1);
    assert FILLED.tree.l0 + [C1] == [C1] && FILLED.tree.hot + [C2] == [C2] && P2.tree.l0 + [K1] == [K1];
    assert FILLED.written + {CLEARED} == P1.written && P2.written + {OLDER} == P3.written;
    assert CLEAR[..3] == [Put(CLEARED), Rotate, Flush({}, [C1], [C2])];
    assert CLEAR[4..7] == [Put(OLDER), Rotate, Flush({}, [K1], [])];
  }

  lemma ClearFirst()
    ensures Leads(DEFAULT, P1, CLEAR[3..4], P2)
  {
    hide Leads;
    Levels(P1, {}, {F2});
    TotalOne(F2, FILLER);
    BaseIsOne(Total(AsSet(P1.tree.l0)), 0);
    Touching(F2, FILLER, C1, CLEARED);
    assert F2 in Level(P1.tree, 2) && ColdOverlap(P1.tree, {C1}, 0, 1, 1);
    assert Bottom({}, {C1}) == {};
    DownFromL0(DEFAULT, P1, 1, C1, CLEARED, C3);
    Lowered(P1, {}, {F2}, 1, C3);
    OnlyTable(C3);
    assert CLEAR[3..4] == [CompactL0(1, 1, Job([CLEARED], {C3}))];
  }

  lemma ClearSecond()
    ensures Leads(DEFAULT, P3, CLEAR[7..8], P4)
  {
    hide Leads;
    Levels(P3, {C3}, {F2});
    TotalOne(F2, FILLER);
    BaseIsOne(Total(AsSet(P3.tree.l0)), Total({C3}));
    Touching(C3, CLEARED, K1, OLDER);
    assert Bottom({C3}, {K1}) == {};
    DownFromL0(DEFAULT, P3, 1, K1, OLDER, K2);
    Lowered(P3, {C3}, {F2}, 1, K2);
    assert {C3} + {K2} == {C3, K2};
    assert CLEAR[7..8] == [CompactL0(1, 1, Job([OLDER], {K2}))];
  }

  lemma ClearAdvances()
    ensures Leads(DEFAULT, P4, CLEAR[8..9], P5)
  {
    hide Leads;
    OneStep(DEFAULT, P4, Advance(2));
    assert CLEAR[8..9] == [Advance(2)];
  }

  const DROP_FILLER: Event := CompactLevel(1, C3, 1, Job([CLEARED, FILLER], {}))

  lemma ClearThirdEnabled()
    ensures Enabled(P5, DROP_FILLER) && Step(P5, DROP_FILLER) == P6
  {
    hide Enabled, Step;
    Touching(F2, FILLER, C3, CLEARED);
    assert Bottom({F2}, {C3}) == {F2};
    OneFile(F2, FILLER);
    assert Set([FILLER]) == {FILLER} && [CLEARED] + [FILLER] == [CLEARED, FILLER];
    LevelDrops(P5, {C3, K2}, {F2}, C3, CLEARED, {F2}, [FILLER]);
    OnlyTable(F2);
    TwoTables(C3, K2);
  }

  lemma ClearThirdChosen()
    requires Enabled(P5, DROP_FILLER)
    ensures Chosen(DEFAULT, P5, DROP_FILLER)
  {
    hide Enabled, Total, BaseOf, Oldest;
    Levels(P5, {C3, K2}, {F2});
    TotalOne(F2, FILLER);
    TotalTwo(C3, CLEARED, K2, OLDER);
    BaseIsOne(Total(AsSet(P5.tree.l0)), Total({C3, K2}));
    OlderThan(C3, CLEARED, K2, OLDER);
  }

  /** The filler and its tombstone leave for good. */
  lemma ClearThird()
    ensures Leads(DEFAULT, P5, CLEAR[9..10], P6)
  {
    hide Leads, Enabled, Chosen, Step;
    ClearThirdEnabled();
    ClearThirdChosen();
    OneStep(DEFAULT, P5, DROP_FILLER);
    assert CLEAR[9..10] == [DROP_FILLER];
  }

  /** Nor does the tombstone's copy stay in the hot tier. */
  lemma ClearFourth()
    ensures Leads(DEFAULT, P6, CLEAR[10..], P7)
  {
    hide Leads;
    var e := CompactHot(1, Job([CLEARED], {}));
    Levels(P6, {K2}, {});
    OneFile(C2, CLEARED);
    Touching(K2, OLDER, C2, CLEARED);
    OnlyTable(C2);
    var none: set<Table> := {};
    assert P6.tree.hot[..1] == [C2] && P6.tree.hot[1..] == [] && Bottom(none, {C2}) == none && none - none + none == none;
    assert !HotOverlap(P6.tree, {C2});
    assert [CLEARED] + [] == [CLEARED];
    Dropped(P6, {C2}, CLEARED, []);
    hide Compacts;
    OneStep(DEFAULT, P6, e);
    assert Step(P6, e) == P7;
    assert CLEAR[10..] == [e];
  }

  lemma Cleared()
    ensures Leads(DEFAULT, FILLED, CLEAR, P7)
  {
    hide Leads;
    ClearWrites();
    ClearFirst();
    ClearSecond();
    ClearAdvances();
    ClearThird();
    ClearFourth();
    LeadsOn(DEFAULT, FILLED, CLEAR[..3], P1, CLEAR[3..4], P2);
    LeadsOn(DEFAULT, FILLED, CLEAR[..3] + CLEAR[3..4], P2, CLEAR[4..7], P3);
    assert CLEAR[..3] + CLEAR[3..4] + CLEAR[4..7] == CLEAR[..7];
    LeadsOn(DEFAULT, FILLED, CLEAR[..7], P3, CLEAR[7..8], P4);
    LeadsOn(DEFAULT, FILLED, CLEAR[..7] + CLEAR[7..8], P4, CLEAR[8..9], P5);
    assert CLEAR[..7] + CLEAR[7..8] + CLEAR[8..9] == CLEAR[..9];
    LeadsOn(DEFAULT, FILLED, CLEAR[..9], P5, CLEAR[9..10], P6);
    LeadsOn(DEFAULT, FILLED, CLEAR[..9] + CLEAR[9..10], P6, CLEAR[10..], P7);
    assert CLEAR[..9] + CLEAR[9..10] + CLEAR[10..] == CLEAR;
  }

  const ALL: set<Entry> := {FILLER, CLEARED, OLDER, GONE}
  const Q1: System := State([G1], {K2}, {}, [G2], {}, ALL, 2)
  const Q2: System := State([G1], {K2}, {}, [G2, H1], {}, ALL + {HOT}, 2)
  const Q3: System := State([G1], {K2}, {}, [H1], {G3}, ALL + {HOT}, 2)
  const Q4: System := State([G1], {K2}, {}, [], {G3, H2}, ALL + {HOT}, 2)
  const Q5: System := State([G1], {K2}, {}, [], {G3, H2}, ALL + {HOT}, 4)
  const Q6: System := State([G1], {K2}, {G4}, [], {H2}, ALL + {HOT}, 4)
  const Q7: System := State([], {K2}, {}, [], {H2}, ALL + {HOT}, 4)

  lemma DeleteWrites()
    ensures Leads(DEFAULT, P7, DELETE[..3], Q1) && Leads(DEFAULT, Q1, DELETE[3..6], Q2)
  {
    hide Leads;
    WriteDead(DEFAULT, P7, GONE, G1, G2);
    WriteHot(DEFAULT, Q1, HOT, H1);
    assert P7.tree.l0 + [G1] == [G1] && P7.tree.hot + [G2] == [G2] && Q1.tree.hot + [H1] == [G2, H1];
    assert P7.written + {GONE} == ALL;
    assert DELETE[..3] == [Put(GONE), Rotate, Flush({}, [G1], [G2])];
    assert DELETE[3..6] == [Put(HOT), Rotate, Flush({HOT}, [], [H1])];
  }

  lemma DeleteHot()
    ensures Leads(DEFAULT, Q2, DELETE[6..7], Q3)
  {
    hide Leads, HotOverlap;
    Overlaps(Q2.tree, G1, G2, GONE);
    assert Bottom({}, {G2}) == {} && [G2, H1] == [G2] + [H1];
    DownFromHot(DEFAULT, Q2, G2, [H1], GONE, G3);
    OnlyTable(G3);
    assert DELETE[6..7] == [CompactHot(1, Job([GONE], {G3}))];
  }

  lemma DeleteHotNext()
    ensures Leads(DEFAULT, Q3, DELETE[7..8], Q4) && Leads(DEFAULT, Q4, DELETE[8..9], Q5)
  {
    hide Leads, HotOverlap;
    Touching(G3, GONE, H1, HOT);
    assert Bottom({G3}, {H1}) == {} && [H1] == [H1] + [];
    DownFromHot(DEFAULT, Q3, H1, [], HOT, H2);
    TwoTables(G3, H2);
    OneStep(DEFAULT, Q4, Advance(4));
    assert DELETE[7..8] == [CompactHot(1, Job([HOT], {H2}))] && DELETE[8..9] == [Advance(4)];
  }

  const MOVE_GONE: Event := Evict(G3, 2, Job([GONE], {G4}))

  lemma DeleteEvictsEnabled()
    ensures Enabled(Q5, MOVE_GONE) && Step(Q5, MOVE_GONE) == Q6
  {
    hide Enabled, Step, HotOverlap;
    Overlaps(Q5.tree, G1, G3, GONE);
    assert Bottom({}, {G3}) == {};
    Evicts(Q5, {K2}, {}, G3, GONE, G4);
    OnlyTable(G4);
    TwoTables(G3, H2);
  }

  lemma DeleteEvictsChosen()
    requires Enabled(Q5, MOVE_GONE)
    ensures Chosen(DEFAULT, Q5, MOVE_GONE)
  {
    hide Enabled, Total, BaseOf, Oldest;
    Levels(Q5, {K2}, {});
    TotalTwo(G3, GONE, H2, HOT);
    TotalOne(K2, OLDER);
    BaseIsLast(Total(AsSet(Q5.tree.l0)), Total({K2}), 0);
    OlderThan(G3, GONE, H2, HOT);
  }

  lemma DeleteEvicts()
    ensures Leads(DEFAULT, Q5, DELETE[9..10], Q6)
  {
    hide Leads, Enabled, Chosen, Step;
    DeleteEvictsEnabled();
    DeleteEvictsChosen();
    OneStep(DEFAULT, Q5, MOVE_GONE);
    assert DELETE[9..10] == [MOVE_GONE];
  }

  const DROP_GONE: Event := CompactL0(1, 2, Job([GONE], {}))

  lemma DeleteDropsEnabled()
    ensures Enabled(Q6, DROP_GONE) && Step(Q6, DROP_GONE) == Q7
  {
    hide Enabled, Step;
    assert HotTables(Q6.tree) == {H2} && !TouchesRange(H2, {G1} + {G4});
    L0Drops(Q6, {K2}, G1, G4, GONE);
  }

  lemma DeleteDropsChosen()
    requires Enabled(Q6, DROP_GONE)
    ensures Chosen(DEFAULT, Q6, DROP_GONE)
  {
    hide Enabled;
    Levels(Q6, {K2}, {G4});
    TotalOne(G4, GONE);
    BaseIsLast(Total(AsSet(Q6.tree.l0)), Total({K2}), Total({G4}));
  }

  lemma DeleteDrops()
    ensures Leads(DEFAULT, Q6, DELETE[10..], Q7)
  {
    hide Leads, Enabled, Chosen, Step;
    DeleteDropsEnabled();
    DeleteDropsChosen();
    OneStep(DEFAULT, Q6, DROP_GONE);
    assert DELETE[10..] == [DROP_GONE];
  }

  lemma Deleted()
    ensures Leads(DEFAULT, P7, DELETE, Q7)
  {
    hide Leads;
    DeleteWrites();
    DeleteHot();
    DeleteHotNext();
    DeleteEvicts();
    DeleteDrops();
    LeadsOn(DEFAULT, P7, DELETE[..3], Q1, DELETE[3..6], Q2);
    LeadsOn(DEFAULT, P7, DELETE[..3] + DELETE[3..6], Q2, DELETE[6..7], Q3);
    assert DELETE[..3] + DELETE[3..6] + DELETE[6..7] == DELETE[..7];
    LeadsOn(DEFAULT, P7, DELETE[..7], Q3, DELETE[7..8], Q4);
    LeadsOn(DEFAULT, P7, DELETE[..7] + DELETE[7..8], Q4, DELETE[8..9], Q5);
    assert DELETE[..7] + DELETE[7..8] + DELETE[8..9] == DELETE[..9];
    LeadsOn(DEFAULT, P7, DELETE[..9], Q5, DELETE[9..10], Q6);
    LeadsOn(DEFAULT, P7, DELETE[..9] + DELETE[9..10], Q6, DELETE[10..], Q7);
    assert DELETE[..9] + DELETE[9..10] + DELETE[10..] == DELETE;
  }

  /** What leads on from the empty tree is a run whose compactions are all chosen. */
  lemma FromEmpty(events: seq<Event>, t: System)
    requires Leads(DEFAULT, Empty(2), events, t)
    ensures IsRun(2, events) && AllChosen(DEFAULT, 2, events) && After(2, events) == t
  {
    LeadsRuns(DEFAULT, 2, [], Empty(2), events, t);
    assert [] + events == events;
  }

  lemma EvictionRuns()
    ensures IsRun(2, EVICTION) && AllChosen(DEFAULT, 2, EVICTION) && After(2, EVICTION) == Q7
  {
    hide Leads;
    Filled();
    Cleared();
    Deleted();
    LeadsOn(DEFAULT, Empty(2), FILL, FILLED, CLEAR, P7);
    LeadsOn(DEFAULT, Empty(2), FILL + CLEAR, P7, DELETE, Q7);
    FromEmpty(EVICTION, Q7);
  }

  lemma EvictionLeaves()
    ensures All(Q7.tree) == {OLDER, HOT}
  {
    Levels(Q7, {K2}, {});
    OneFile(K2, OLDER);
    OneFile(H2, HOT);
    assert HotTables(Q7.tree) == {H2} && ColdTables(Q7.tree) == {K2} && Memory(Q7.tree) == {};
  }

  /** A deleted key comes back. The older version is on level 1; the last level has become small, so
      that the base level is 2 again, and the tombstone's copy from the hot tier is evicted past the
      older version. When the other copy follows from level 0 nothing is found to overlap, and both
      are dropped. */
  lemma EvictionBringsBack()
    ensures IsRun(2, EVICTION) && AllChosen(DEFAULT, 2, EVICTION) && After(2, EVICTION).discardTs <= 10
    ensures Reads(After(2, EVICTION).written, KEY, 10, None)
    ensures Reads(All(After(2, EVICTION).tree), KEY, 10, Some(OLDER))
    ensures !AllLossless(2, EVICTION)
  {
    hide AllChosen, IsRun, After;
    EvictionRuns();
    EvictionLeaves();
    assert Newest(ALL + {HOT}, KEY, 10, GONE) && Newest({OLDER, HOT}, KEY, 10, OLDER);
    ExactlyLossless(2, EVICTION);
    assert !Reads(ALL + {HOT}, KEY, 10, Some(OLDER));
    EndOfRun(EVICTION);
    assert !Answers(Q7);
  }

  lemma EndOfRun(events: seq<Event>)
    requires IsRun(2, events)
    ensures AlwaysAnswered(2, events) ==> Answers(After(2, events))
  {
  }

  // ---------- Expiry ----------

  const LATER: Entry := Entry(InternalKey(KEY, 4), false, false, false, 10 * 0x10_0000)
  const EXPIRED: Entry := LATER.(dead := true)

  const U1: Table := Table(3, [OLDER])
  const U2: Table := Table(4, [OLDER])
  const U3: Table := Table(5, [LATER])
  const U4: Table := Table(6, [LATER])
  const U5: Table := Table(6, [EXPIRED])

  const REPLACE: seq<Event> := [
    Put(OLDER), Rotate, Flush({OLDER}, [], [U1]), CompactHot(1, Job([OLDER], {U2})),
    Put(LATER), Rotate, Flush({}, [U3], []), CompactL0(1, 1, Job([LATER], {U4})),
    Expire({InternalKey(KEY, 4)}), Advance(4), CompactLevel(1, U5, 1, Job([EXPIRED], {}))]

  const EXPIRY: seq<Event> := FILL + REPLACE

  const R1: System := State([], {}, {F2}, [U1], {}, {FILLER, OLDER}, 0)
  const R2: System := State([], {}, {F2}, [], {U2}, {FILLER, OLDER}, 0)
  const R3: System := State([U3], {}, {F2}, [], {U2}, {FILLER, OLDER, LATER}, 0)
  const R4: System := State([], {U4}, {F2}, [], {U2}, {FILLER, OLDER, LATER}, 0)
  const R5: System := State([], {U5}, {F2}, [], {U2}, {FILLER, OLDER, EXPIRED}, 0)
  const R6: System := State([], {U5}, {F2}, [], {U2}, {FILLER, OLDER, EXPIRED}, 4)
  const R7: System := State([], {}, {F2}, [], {U2}, {FILLER, OLDER, EXPIRED}, 4)

  lemma ReplaceWrites()
    ensures Leads(DEFAULT, FILLED, REPLACE[..3], R1) && Leads(DEFAULT, R2, REPLACE[4..7], R3)
  {
    hide Leads;
    WriteHot(DEFAULT, FILLED, OLDER, U1);
    WriteCold(DEFAULT, R2, LATER, U3);
    assert FILLED.tree.hot + [U1] == [U1] && R2.tree.l0 + [U3] == [U3];
    assert FILLED.written + {OLDER} == R1.written && R2.written + {LATER} == R3.written;
    assert REPLACE[..3] == [Put(OLDER), Rotate, Flush({OLDER}, [], [U1])];
    assert REPLACE[4..7] == [Put(LATER), Rotate, Flush({}, [U3], [])];
  }

  lemma ReplaceMoves()
    ensures Leads(DEFAULT, R1, REPLACE[3..4], R2) && Leads(DEFAULT, R3, REPLACE[7..8], R4)
  {
    hide Leads;
    assert Bottom({}, {U1}) == {} && [U1] == [U1] + [] && {} + {U2} == {U2};
    DownFromHot(DEFAULT, R1, U1, [], OLDER, U2);
    Levels(R3, {}, {F2});
    TotalOne(F2, FILLER);
    BaseIsOne(Total(AsSet(R3.tree.l0)), 0);
    assert Bottom({}, {U3}) == {};
    DownFromL0(DEFAULT, R3, 1, U3, LATER, U4);
    Lowered(R3, {}, {F2}, 1, U4);
    OnlyTable(U4);
    assert REPLACE[3..4] == [CompactHot(1, Job([OLDER], {U2}))] && REPLACE[7..8] == [CompactL0(1, 1, Job([LATER], {U4}))];
  }

  lemma OneAged(t: Table, x: Entry, keys: set<InternalKey>)
    requires t.entries == [x]
    ensures AgedTable(t, keys) == Table(t.id, [Aged(x, keys)])
    ensures AgedTables({t}, keys) == {AgedTable(t, keys)} && AgedTables({}, keys) == {}
  {
    assert t in {t};
  }

  const LATER_KEYS: set<InternalKey> := {InternalKey(KEY, 4)}

  lemma ReplaceAges()
    ensures AgedTree(R4.tree, LATER_KEYS) == R5.tree
    ensures AgedEntries(R4.written, LATER_KEYS) == R5.written
  {
    OneAged(U4, LATER, LATER_KEYS);
    OneAged(U2, OLDER, LATER_KEYS);
    OneAged(F2, FILLER, LATER_KEYS);
    hide AgedTables, AgedTable;
    assert Aged(FILLER, LATER_KEYS) == FILLER && Aged(OLDER, LATER_KEYS) == OLDER && Aged(LATER, LATER_KEYS) == EXPIRED;
    assert AgedEntries({}, LATER_KEYS) == {} && AgedEntries({FILLER, OLDER, LATER}, LATER_KEYS) == {FILLER, OLDER, EXPIRED};
  }

  lemma ReplaceExpires()
    ensures Leads(DEFAULT, R4, REPLACE[8..9], R5) && Leads(DEFAULT, R5, REPLACE[9..10], R6)
  {
    hide Leads, AgedTree, AgedEntries;
    ReplaceAges();
    OneStep(DEFAULT, R4, Expire(LATER_KEYS));
    OneStep(DEFAULT, R5, Advance(4));
    assert REPLACE[8..9] == [Expire(LATER_KEYS)] && REPLACE[9..10] == [Advance(4)];
  }

  const DROP_EXPIRED: Event := CompactLevel(1, U5, 1, Job([EXPIRED], {}))

  lemma ReplaceDropsEnabled()
    ensures Enabled(R6, DROP_EXPIRED) && Step(R6, DROP_EXPIRED) == R7
  {
    hide Enabled, Step;
    Touching(F2, FILLER, U5, EXPIRED);
    assert Bottom({F2}, {U5}) == {} && Files({}) == {};
    assert [EXPIRED] + [] == [EXPIRED] && Set([]) == {};
    LevelDrops(R6, {U5}, {F2}, U5, EXPIRED, {}, []);
    OnlyTable(U5);
    OnlyTable(F2);
  }

  lemma ReplaceDropsChosen()
    requires Enabled(R6, DROP_EXPIRED)
    ensures Chosen(DEFAULT, R6, DROP_EXPIRED)
  {
    hide Enabled;
    Levels(R6, {U5}, {F2});
    TotalOne(F2, FILLER);
    TotalOne(U5, EXPIRED);
    BaseIsOne(Total(AsSet(R6.tree.l0)), Total({U5}));
    assert Oldest(U5, {U5});
  }

  lemma ReplaceDrops()
    ensures Leads(DEFAULT, R6, REPLACE[10..], R7)
  {
    hide Leads, Enabled, Chosen, Step;
    ReplaceDropsEnabled();
    ReplaceDropsChosen();
    OneStep(DEFAULT, R6, DROP_EXPIRED);
    assert REPLACE[10..] == [DROP_EXPIRED];
  }

  lemma ExpiryRuns()
    ensures IsRun(2, EXPIRY) && AllChosen(DEFAULT, 2, EXPIRY) && After(2, EXPIRY) == R7
  {
    hide Leads;
    Filled();
    ReplaceWrites();
    ReplaceMoves();
    ReplaceExpires();
    ReplaceDrops();
    LeadsOn(DEFAULT, FILLED, REPLACE[..3], R1, REPLACE[3..4], R2);
    LeadsOn(DEFAULT, FILLED, REPLACE[..3] + REPLACE[3..4], R2, REPLACE[4..7], R3);
    assert REPLACE[..3] + REPLACE[3..4] + REPLACE[4..7] == REPLACE[..7];
    LeadsOn(DEFAULT, FILLED, REPLACE[..7], R3, REPLACE[7..8], R4);
    LeadsOn(DEFAULT, FILLED, REPLACE[..7] + REPLACE[7..8], R4, REPLACE[8..9], R5);
    assert REPLACE[..7] + REPLACE[7..8] + REPLACE[8..9] == REPLACE[..9];
    LeadsOn(DEFAULT, FILLED, REPLACE[..9], R5, REPLACE[9..10], R6);
    LeadsOn(DEFAULT, FILLED, REPLACE[..9] + REPLACE[9..10], R6, REPLACE[10..], R7);
    assert REPLACE[..9] + REPLACE[9..10] + REPLACE[10..] == REPLACE;
    LeadsOn(DEFAULT, Empty(2), FILL, FILLED, REPLACE, R7);
    FromEmpty(EXPIRY, R7);
  }

  lemma ExpiryLeaves()
    ensures All(R7.tree) == {FILLER, OLDER}
  {
    Levels(R7, {}, {F2});
    OneFile(F2, FILLER);
    OneFile(U2, OLDER);
    assert HotTables(R7.tree) == {U2} && ColdTables(R7.tree) == {F2} && Memory(R7.tree) == {};
  }

  /** An expired key comes back, without any eviction. Its older version is in the hot tier; it was
      alive when it was flushed, so only the cold tier has it; and at the base level or below a
      compaction does not look at the hot tier. */
  lemma ExpiryBringsBack()
    ensures IsRun(2, EXPIRY) && AllChosen(DEFAULT, 2, EXPIRY) && After(2, EXPIRY).discardTs <= 10
    ensures forall e | e in EXPIRY :: !e.Evict?
    ensures Reads(After(2, EXPIRY).written, KEY, 10, None)
    ensures Reads(All(After(2, EXPIRY).tree), KEY, 10, Some(OLDER))
    ensures !AllLossless(2, EXPIRY)
  {
    hide AllChosen, IsRun, After;
    ExpiryRuns();
    ExpiryLeaves();
    assert Newest({FILLER, OLDER, EXPIRED}, KEY, 10, EXPIRED) && Newest({FILLER, OLDER}, KEY, 10, OLDER);
    ExactlyLossless(2, EXPIRY);
    assert !Reads({FILLER, OLDER, EXPIRED}, KEY, 10, Some(OLDER));
    EndOfRun(EXPIRY);
    assert !Answers(R7);
  }
}
