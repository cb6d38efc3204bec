/** A run of compactions after which an ordered level is not sorted: level 0 and L99 are compacted
    into one level at the same time. */
module AdmissionHarm {
  import opened Keys
  import opened Compaction
  import Lsm
  import opened Levels
  import opened Admission
  import opened AdmissionRuns

  // ---------- Going from state to state ----------

  ghost predicate Leads(s: State, events: seq<Event>, t: State)
    decreases |events|
  {
    if events == [] then s == t
    else Enabled(s, events[0]) && Leads(Step(s, events[0]), events[1..], t)
  }

  lemma OneStep(s: State, e: Event)
    requires Enabled(s, e)
    ensures Leads(s, [e], Step(s, e))
  {
    hide Enabled, Step;
    assert [e][1..] == [] && Leads(Step(s, e), [], Step(s, e));
  }

  lemma {:induction false} LeadsOn(s: State, a: seq<Event>, t: State, b: seq<Event>, u: State)
    requires Leads(s, a, t) && Leads(t, b, u)
    ensures Leads(s, a + b, u)
    decreases |a|
  {
    hide Enabled, Step;
    if a == [] {
      assert a + b == b;
    } else {
      assert (a + b)[1..] == a[1..] + b;
      LeadsOn(Step(s, a[0]), a[1..], t, b, u);
    }
  }

  lemma {:induction false} LeadsRuns(done: seq<Event>, s: State, events: seq<Event>, t: State)
    requires IsRun(done) && After(done) == s && Leads(s, events, t)
    ensures IsRun(done + events) && After(done + events) == t
    decreases |events|
  {
    hide Enabled, Step;
    if events == [] {
      assert done + events == done;
    } else {
      var next := done + [events[0]];
      assert next[..|done|] == done && done + events == next + events[1..];
      LeadsRuns(next, Step(s, events[0]), events[1..], t);
    }
  }

  // ---------- What a state is like ----------

  function Lay(lay: map<nat, set<Lsm.Table>>, level: nat): set<Lsm.Table> {
    if level in lay then lay[level] else {}
  }

  /** The tables of the levels, the registered ranges and the running compactions. */
  ghost predicate Holds(s: State, lay: map<nat, set<Lsm.Table>>, busy: map<nat, seq<KeyRange>>, jobs: map<JobId, CompactDef>) {
    && s.jobs == jobs
    && (forall level :: TablesAt(s, level) == Lay(lay, level))
    && forall level :: RangesOf(s.status.ranges, level) == RangesOf(busy, level)
  }

  ghost predicate Unused(lay: map<nat, set<Lsm.Table>>, id: nat) {
    forall level, t | level in lay && t in lay[level] :: t.id != id
  }

  lemma Adds(s: State, lay: map<nat, set<Lsm.Table>>, busy: map<nat, seq<KeyRange>>, jobs: map<JobId, CompactDef>, level: nat,
             t: Lsm.Table)
    returns (next: State)
    requires Holds(s, lay, busy, jobs) && Unordered(level) && t.Valid() && Unused(lay, t.id)
    ensures Leads(s, [AddTable(level, t)], next) && Holds(next, lay[level := Lay(lay, level) + {t}], busy, jobs)
  {
    hide Leads, Lsm.Table.Valid;
    assert NewId(s, t.id) by {
      IdUnused(s, lay, busy, jobs, t.id);
    }
    OneStep(s, AddTable(level, t));
    next := Step(s, AddTable(level, t));
    forall l ensures TablesAt(next, l) == Lay(lay[level := Lay(lay, level) + {t}], l) {
      assert TablesAt(s, l) == Lay(lay, l) && TablesAt(s, level) == Lay(lay, level);
    }
  }

  lemma IdUnused(s: State, lay: map<nat, set<Lsm.Table>>, busy: map<nat, seq<KeyRange>>, jobs: map<JobId, CompactDef>, id: nat)
    requires Holds(s, lay, busy, jobs) && Unused(lay, id)
    ensures NewId(s, id)
  {
  }

  lemma Starts(s: State, lay: map<nat, set<Lsm.Table>>, busy: map<nat, seq<KeyRange>>, jobs: map<JobId, CompactDef>, id: JobId,
               cd: CompactDef)
    returns (next: State)
    requires Holds(s, lay, busy, jobs) && id !in jobs && cd.source != cd.target && !Unordered(cd.target)
    requires Lsm.AsSet(cd.top) <= Lay(lay, cd.source) && Planned(cd, Lay(lay, cd.target)) && Once(cd.top) && Once(cd.bot)
    requires !Hits(RangesOf(busy, cd.source), cd.thisRange) && !Hits(RangesOf(busy, cd.target), cd.nextRange)
    ensures Leads(s, [Start(id, cd)], next)
    ensures Holds(next, lay, Register(Register(busy, cd.source, cd.thisRange), cd.target, cd.nextRange), jobs[id := cd])
  {
    hide Leads, Planned, Once, Hits, Ids;
    assert TablesAt(s, cd.source) == Lay(lay, cd.source) && TablesAt(s, cd.target) == Lay(lay, cd.target);
    assert RangesOf(s.status.ranges, cd.source) == RangesOf(busy, cd.source);
    assert RangesOf(s.status.ranges, cd.target) == RangesOf(busy, cd.target);
    OneStep(s, Start(id, cd));
    next := Step(s, Start(id, cd));
    assert forall level :: TablesAt(next, level) == TablesAt(s, level);
    var more := Register(Register(busy, cd.source, cd.thisRange), cd.target, cd.nextRange);
    forall level ensures RangesOf(next.status.ranges, level) == RangesOf(more, level) {
      assert RangesOf(s.status.ranges, level) == RangesOf(busy, level);
    }
  }

  lemma Ends(s: State, lay: map<nat, set<Lsm.Table>>, busy: map<nat, seq<KeyRange>>, jobs: map<JobId, CompactDef>, id: JobId,
             out: Lsm.Table)
    returns (next: State)
    requires Holds(s, lay, busy, jobs) && id in jobs && jobs[id].source != jobs[id].target && !jobs[id].nextRange.IsEmpty()
    requires out.Valid() && Lsm.Files({out}) <= Lsm.Files(Lsm.AsSet(jobs[id].top + jobs[id].bot)) && Unused(lay, out.id)
    ensures Leads(s, [Finish(id, [out])], next)
    ensures var cd := jobs[id];
            Holds(next, Finished(lay, cd, out), Deleted(Status(busy, {}, map[]), cd).ranges, Others(jobs, id))
  {
    hide Leads, Lsm.Files, Ids, Without, Lsm.Table.Valid;
    assert Lsm.AsSet([out]) == {out};
    IdUnused(s, lay, busy, jobs, out.id);
    OneStep(s, Finish(id, [out]));
    next := Step(s, Finish(id, [out]));
    var cd := jobs[id];
    assert TablesAt(s, cd.source) == Lay(lay, cd.source) && TablesAt(s, cd.target) == Lay(lay, cd.target);
    forall level ensures TablesAt(next, level) == Lay(Finished(lay, cd, out), level) {
      assert TablesAt(s, level) == Lay(lay, level);
    }
    forall level ensures RangesOf(next.status.ranges, level) == RangesOf(Deleted(Status(busy, {}, map[]), cd).ranges, level) {
      assert RangesOf(s.status.ranges, level) == RangesOf(busy, level);
      assert RangesOf(s.status.ranges, cd.source) == RangesOf(busy, cd.source);
      assert RangesOf(s.status.ranges, cd.target) == RangesOf(busy, cd.target);
    }
  }

  ghost function Others(jobs: map<JobId, CompactDef>, id: JobId): map<JobId, CompactDef> {
    map j | j in jobs && j != id :: jobs[j]
  }

  ghost function Finished(lay: map<nat, set<Lsm.Table>>, cd: CompactDef, out: Lsm.Table): map<nat, set<Lsm.Table>> {
    lay[cd.target := Lay(lay, cd.target) - Lsm.AsSet(cd.bot) + {out}][cd.source := Lay(lay, cd.source) - Lsm.AsSet(cd.top)]
  }

  // ---------- The run ----------

  const BELOW: seq<Entry> := [Live(4, 3), Live(6, 3)]
  const ABOVE: seq<Entry> := [Live(1, 9), Live(5, 9)]
  const HOT: seq<Entry> := [Live(1, 2), Live(2, 2)]

  const T1: Lsm.Table := Lsm.Table(1, BELOW)
  const LOWER: Lsm.Table := Lsm.Table(2, BELOW)
  const T3: Lsm.Table := Lsm.Table(3, HOT)
  const GAP: Lsm.Table := Lsm.Table(4, HOT)
  const UPPER: Lsm.Table := Lsm.Table(5, ABOVE)
  const FROM_A: Lsm.Table := Lsm.Table(6, [Live(1, 9), Live(4, 3), Live(5, 9), Live(6, 3)])
  const FROM_B: Lsm.Table := Lsm.Table(7, HOT)

  const FIRST: CompactDef := CompactDef(0, 3, [T1], [], Span(4, 6), Span(4, 6), 0)
  const SECOND: CompactDef := CompactDef(98, 99, [T3], [], Span(1, 2), Span(1, 2), 0)
  const A: CompactDef := CompactDef(0, 3, [UPPER], [LOWER], Span(1, 5), Span(4, 6), 0)
  const B: CompactDef := CompactDef(99, 3, [GAP], [], Span(1, 2), Span(1, 2), 0)

  const PREPARE: seq<Event> := [
    AddTable(0, T1), Start(0, FIRST), Finish(0, [LOWER]), AddTable(98, T3), Start(1, SECOND), Finish(1, [GAP]), AddTable(0, UPPER)]

  const COLLIDE: seq<Event> := [Start(2, A), Start(3, B), Finish(2, [FROM_A]), Finish(3, [FROM_B])]

  lemma Tables()
    ensures T1.Valid() && LOWER.Valid() && T3.Valid() && GAP.Valid() && UPPER.Valid() && FROM_A.Valid() && FROM_B.Valid()
    ensures LOWER.Lo() == 4 && LOWER.Hi() == 6 && GAP.Lo() == 1 && GAP.Hi() == 2 && UPPER.Lo() == 1 && UPPER.Hi() == 5
    ensures T1.Lo() == 4 && T1.Hi() == 6 && T3.Lo() == 1 && T3.Hi() == 2
    ensures FROM_A.Lo() == 1 && FROM_A.Hi() == 6 && FROM_B.Lo() == 1 && FROM_B.Hi() == 2
  {
  }

  /** A single table goes to a level without tables. */
  lemma Alone(cd: CompactDef, t: Lsm.Table, lo: UserKey, hi: UserKey)
    requires cd.top == [t] && cd.bot == [] && cd.thisRange == Span(lo, hi) && cd.nextRange == Span(lo, hi)
    requires t.Valid() && t.Lo() == lo && t.Hi() == hi && lo <= hi
    ensures Planned(cd, {}) && Once(cd.top) && Once(cd.bot) && Lsm.AsSet(cd.top) == {t} && Lsm.AsSet(cd.bot) == {}
    ensures Lsm.AsSet(cd.top + cd.bot) == {t}
  {
    assert t in cd.top;
    assert cd.top + cd.bot == [t];
  }

  lemma SameFiles(t: Lsm.Table, u: Lsm.Table)
    requires t.entries == u.entries
    ensures Lsm.Files({t}) == Lsm.Files({u})
  {
    assert t in {t} && u in {u};
  }

  /** From a table on its own to one on another level. */
  lemma MovesAlone(s: State, lay: map<nat, set<Lsm.Table>>, id: JobId, cd: CompactDef, t: Lsm.Table, lo: UserKey, hi: UserKey, out: Lsm.Table)
    returns (end: State)
    requires Holds(s, lay, map[], map[]) && cd.source != cd.target && Unordered(cd.source) && !Unordered(cd.target)
    requires Lay(lay, cd.source) == {} && Lay(lay, cd.target) == {}
    requires cd.top == [t] && cd.bot == [] && cd.thisRange == Span(lo, hi) && cd.nextRange == Span(lo, hi)
    requires t.Valid() && t.Lo() == lo && t.Hi() == hi && lo <= hi && out.Valid() && out.entries == t.entries
    requires Unused(lay, t.id) && Unused(lay, out.id) && t.id != out.id
    ensures Leads(s, [AddTable(cd.source, t), Start(id, cd), Finish(id, [out])], end)
    ensures Holds(end, lay[cd.source := {}][cd.target := {out}], map[], map[])
  {
    hide Leads, Lsm.Table.Valid, Planned, Lsm.Files, Holds;
    Alone(cd, t, lo, hi);
    var none: set<Lsm.Table> := {};
    assert none + {t} == {t} && none - none + {out} == {out} && {t} - {t} == none;
    var lay1: map<nat, set<Lsm.Table>> := lay[cd.source := Lay(lay, cd.source) + {t}];
    var s1 := Adds(s, lay, map[], map[], cd.source, t);
    NothingHit(cd.thisRange);
    var s2 := Starts(s1, lay1, map[], map[], id, cd);
    SameFiles(t, out);
    var jobs: map<JobId, CompactDef> := map[id := cd];
    assert map[][id := cd] == jobs;
    var busy := Register(Register(map[], cd.source, cd.thisRange), cd.target, cd.nextRange);
    end := Ends(s2, lay1, busy, jobs, id, out);
    NothingBusy(cd);
    hide Deleted, Register;
    SameLay(end, Finished(lay1, cd, out), Deleted(Status(busy, {}, map[]), cd).ranges, Others(jobs, id),
            lay[cd.source := {}][cd.target := {out}], map[], map[]);
    LeadsOn(s, [AddTable(cd.source, t)], s1, [Start(id, cd)], s2);
    LeadsOn(s, [AddTable(cd.source, t)] + [Start(id, cd)], s2, [Finish(id, [out])], end);
    assert [AddTable(cd.source, t)] + [Start(id, cd)] + [Finish(id, [out])] == [AddTable(cd.source, t), Start(id, cd), Finish(id, [out])];
  }

  lemma NothingHit(r: KeyRange)
    ensures !Hits([], r)
  {
  }

  lemma SameLay(s: State, a: map<nat, set<Lsm.Table>>, busyA: map<nat, seq<KeyRange>>, jobsA: map<JobId, CompactDef>,
                b: map<nat, set<Lsm.Table>>, busyB: map<nat, seq<KeyRange>>, jobsB: map<JobId, CompactDef>)
    requires Holds(s, a, busyA, jobsA) && jobsA == jobsB && (forall level :: Lay(a, level) == Lay(b, level))
    requires forall level :: RangesOf(busyA, level) == RangesOf(busyB, level)
    ensures Holds(s, b, busyB, jobsB)
  {
  }

  /** What one compaction has registered is all gone again. */
  lemma NothingBusy(cd: CompactDef)
    requires cd.source != cd.target && !cd.nextRange.IsEmpty()
    ensures var busy := Register(Register(map[], cd.source, cd.thisRange), cd.target, cd.nextRange);
            forall level :: RangesOf(Deleted(Status(busy, {}, map[]), cd).ranges, level) == []
  {
    WithoutOne(cd.thisRange);
    WithoutOne(cd.nextRange);
    hide Without;
    var busy := Register(Register(map[], cd.source, cd.thisRange), cd.target, cd.nextRange);
    assert [] + [cd.thisRange] == [cd.thisRange] && [] + [cd.nextRange] == [cd.nextRange];
    assert RangesOf(busy, cd.source) == [cd.thisRange] && RangesOf(busy, cd.target) == [cd.nextRange];
  }

  lemma WithoutOne(r: KeyRange)
    ensures Without([r], r) == []
  {
    assert [r][..0] == [] && Without([], r) == [];
  }

  const READY: map<nat, set<Lsm.Table>> := map[0 := {UPPER}, 3 := {LOWER}, 98 := {}, 99 := {GAP}]

  lemma Prepared() returns (s: State)
    ensures Leads(After([]), PREPARE, s) && Holds(s, READY, map[], map[])
  {
    hide Leads, Lsm.Table.Valid, Holds, Lsm.Table.Lo, Lsm.Table.Hi;
    Tables();
    var lay0: map<nat, set<Lsm.Table>> := map[];
    Start0();
    var s1 := MovesAlone(After([]), lay0, 0, FIRST, T1, 4, 6, LOWER);
    var lay1 := lay0[0 := {}][3 := {LOWER}];
    var s2 := MovesAlone(s1, lay1, 1, SECOND, T3, 1, 2, GAP);
    var lay2 := lay1[98 := {}][99 := {GAP}];
    s := Adds(s2, lay2, map[], map[], 0, UPPER);
    var none: set<Lsm.Table> := {};
    assert none + {UPPER} == {UPPER};
    SameLay(s, lay2[0 := Lay(lay2, 0) + {UPPER}], map[], map[], READY, map[], map[]);
    assert PREPARE[..3] == [AddTable(0, T1), Start(0, FIRST), Finish(0, [LOWER])];
    assert PREPARE[3..6] == [AddTable(98, T3), Start(1, SECOND), Finish(1, [GAP])] && PREPARE[6..] == [AddTable(0, UPPER)];
    LeadsOn(After([]), PREPARE[..3], s1, PREPARE[3..6], s2);
    LeadsOn(After([]), PREPARE[..3] + PREPARE[3..6], s2, PREPARE[6..], s);
    assert PREPARE[..3] + PREPARE[3..6] + PREPARE[6..] == PREPARE;
  }

  lemma Start0()
    ensures Holds(After([]), map[], map[], map[])
  {
  }

  lemma PlanA()
    ensures Planned(A, {LOWER}) && Once(A.top) && Once(A.bot) && Lsm.AsSet(A.top) == {UPPER} && Lsm.AsSet(A.bot) == {LOWER}
    ensures Lsm.Files({FROM_A}) == Lsm.Files(Lsm.AsSet(A.top + A.bot))
  {
    hide Lsm.Table.Valid;
    Tables();
    assert UPPER in A.top && LOWER in A.bot && A.top + A.bot == [UPPER, LOWER] && Lsm.AsSet([UPPER, LOWER]) == {UPPER, LOWER};
    forall e ensures e in Lsm.Files({FROM_A}) <==> e in Lsm.Files({UPPER, LOWER}) {
      assert FROM_A in {FROM_A} && UPPER in {UPPER, LOWER} && LOWER in {UPPER, LOWER};
      assert e in FROM_A.entries <==> e in UPPER.entries || e in LOWER.entries;
    }
  }

  lemma PlanB()
    ensures Planned(B, {LOWER}) && Once(B.top) && Once(B.bot) && Lsm.AsSet(B.top) == {GAP} && Lsm.AsSet(B.bot) == {}
    ensures Lsm.Files({FROM_B}) == Lsm.Files(Lsm.AsSet(B.top + B.bot))
  {
    hide Lsm.Table.Valid;
    Tables();
    assert GAP in B.top && B.top + B.bot == [GAP];
    SameFiles(FROM_B, GAP);
  }

  const BUSY_A: map<nat, seq<KeyRange>> := Register(Register(map[], 0, Span(1, 5)), 3, Span(4, 6))
  const BUSY_B: map<nat, seq<KeyRange>> := Register(Register(BUSY_A, 99, Span(1, 2)), 3, Span(1, 2))

  /** Both are admitted: the range of the second is apart from the tables that the first rewrites. */
  lemma BothStart(s: State) returns (t: State)
    requires Holds(s, READY, map[], map[])
    ensures Leads(s, COLLIDE[..2], t) && Holds(t, READY, BUSY_B, map[2 := A, 3 := B])
  {
    hide Leads, Holds, Planned, Lsm.Files, Step;
    PlanA();
    PlanB();
    NothingHit(A.thisRange);
    NothingHit(A.nextRange);
    assert RangesOf(map[], 0) == [] && RangesOf(map[], 3) == [];
    var s1 := Starts(s, READY, map[], map[], 2, A);
    assert map[][2 := A] == map[2 := A];
    assert RangesOf(BUSY_A, 3) == [Span(4, 6)] && RangesOf(BUSY_A, 99) == [];
    SpansOverlap(4, 6, 1, 2);
    t := Starts(s1, READY, BUSY_A, map[2 := A], 3, B);
    assert map[2 := A][3 := B] == map[2 := A, 3 := B];
    LeadsOn(s, [Start(2, A)], s1, [Start(3, B)], t);
    assert COLLIDE[..2] == [Start(2, A)] + [Start(3, B)];
  }

  lemma BothEnd(s: State) returns (t: State)
    requires Holds(s, READY, BUSY_B, map[2 := A, 3 := B])
    ensures Leads(s, COLLIDE[2..], t) && TablesAt(t, 3) == {FROM_A, FROM_B}
  {
    hide Leads, Holds, Lsm.Files, Step, Lsm.Table.Valid, Deleted;
    Tables();
    PlanA();
    PlanB();
    var both: map<JobId, CompactDef> := map[2 := A, 3 := B];
    var one: map<JobId, CompactDef> := map[3 := B];
    var s1 := Ends(s, READY, BUSY_B, both, 2, FROM_A);
    assert Others(both, 2) == one;
    var lay, busy := Finished(READY, A, FROM_A), Deleted(Status(BUSY_B, {}, map[]), A).ranges;
    var none: set<Lsm.Table> := {};
    assert {LOWER} - {LOWER} + {FROM_A} == {FROM_A} && {FROM_A} - none + {FROM_B} == {FROM_A, FROM_B};
    assert Lay(lay, 3) == {FROM_A} && Lay(lay, 99) == {GAP} && Lay(lay, 0) == none;
    t := Ends(s1, lay, busy, one, 3, FROM_B);
    LeadsOn(s, [Finish(2, [FROM_A])], s1, [Finish(3, [FROM_B])], t);
    assert COLLIDE[2..] == [Finish(2, [FROM_A])] + [Finish(3, [FROM_B])];
    LevelThree(t, Finished(lay, B, FROM_B), Deleted(Status(busy, {}, map[]), B).ranges, Others(one, 3));
  }

  lemma LevelThree(s: State, lay: map<nat, set<Lsm.Table>>, busy: map<nat, seq<KeyRange>>, jobs: map<JobId, CompactDef>)
    requires Holds(s, lay, busy, jobs)
    ensures TablesAt(s, 3) == Lay(lay, 3)
  {
  }

  const COLLISION: seq<Event> := PREPARE + COLLIDE

  /** A run that is not orderly: compactions from level 0 and from L99 into level 3 are both admitted,
      and both finish; then two tables of level 3 overlap. */
  lemma SourcesCollide()
    ensures IsRun(COLLISION) && !Orderly(COLLISION) && !Lsm.Separate(TablesAt(After(COLLISION), 3))
  {
    hide Leads, Holds, Step, Enabled, Lsm.Separate, Orderly;
    var s := Prepared();
    var t := BothStart(s);
    var u := BothEnd(t);
    LeadsOn(s, COLLIDE[..2], t, COLLIDE[2..], u);
    assert COLLIDE[..2] + COLLIDE[2..] == COLLIDE;
    LeadsOn(After([]), PREPARE, s, COLLIDE, u);
    LeadsRuns([], After([]), COLLISION, u);
    assert [] + COLLISION == COLLISION;
    Tables();
    Overlapping();
    if Orderly(COLLISION) {
      LevelsStaySorted(COLLISION, 3);
    }
  }

  lemma Overlapping()
    ensures !Lsm.Separate({FROM_A, FROM_B})
  {
    hide Lsm.Table.Valid;
    Tables();
    assert FROM_A in {FROM_A, FROM_B} && FROM_B in {FROM_A, FROM_B};
  }
}
