/** Any interleaving of compactions between levels, finished or failed: the registered ranges stay
    apart, running compactions share no table, and their entries are found again at the end. Every
    ordered level stays sorted as long as what running compactions take into one level is apart. */
module AdmissionRuns {
  import opened Keys
  import opened Compaction
  import opened Lsm
  import opened Levels
  import opened Admission

  type JobId = nat

  datatype State = State(levels: map<nat, set<Table>>, status: Status, jobs: map<JobId, CompactDef>)

  datatype Event =
    | AddTable(level: nat, table: Table)
    | Start(id: JobId, cd: CompactDef)
    | Finish(id: JobId, outcome: seq<Table>)
    | Fail(id: JobId)

  ghost function TablesAt(s: State, level: nat): set<Table> {
    if level in s.levels then s.levels[level] else {}
  }

  predicate Unordered(level: nat) {
    level == 0 || level == 98
  }

  ghost predicate NewId(s: State, id: nat) {
    forall level, t | t in TablesAt(s, level) :: t.id != id
  }

  ghost predicate Enabled(s: State, e: Event) {
    match e
    case AddTable(level, table) =>
      Unordered(level) && table.Valid() && NewId(s, table.id)
    case Start(id, cd) =>
      && id !in s.jobs && cd.source != cd.target && !Unordered(cd.target)
      && AsSet(cd.top) <= TablesAt(s, cd.source) && Planned(cd, TablesAt(s, cd.target))
      && Once(cd.top) && Once(cd.bot)
      && Admits(s.status, cd)
    case Finish(id, outcome) =>
      && id in s.jobs && Separate(AsSet(outcome))
      && Files(AsSet(outcome)) <= Files(AsSet(s.jobs[id].top + s.jobs[id].bot))
      && forall t | t in outcome :: NewId(s, t.id) && forall u | u in outcome && u.id == t.id :: u == t
    case Fail(id) => id in s.jobs
  }

  predicate Once(tables: seq<Table>) {
    forall i, j | 0 <= i < j < |tables| :: tables[i] != tables[j]
  }

  ghost function Step(s: State, e: Event): State
    requires Enabled(s, e)
  {
    match e
    case AddTable(level, table) => s.(levels := s.levels[level := TablesAt(s, level) + {table}])
    case Start(id, cd) => s.(status := Added(s.status, cd), jobs := s.jobs[id := cd])
    case Finish(id, outcome) =>
      var cd := s.jobs[id];
      var replaced := s.levels[cd.target := TablesAt(s, cd.target) - AsSet(cd.bot) + AsSet(outcome)];
      State(replaced[cd.source := TablesAt(s, cd.source) - AsSet(cd.top)],
            Deleted(s.status, cd), map j | j in s.jobs && j != id :: s.jobs[j])
    case Fail(id) => s.(status := Deleted(s.status, s.jobs[id]), jobs := map j | j in s.jobs && j != id :: s.jobs[j])
  }

  ghost predicate IsRun(events: seq<Event>)
    decreases |events|, 0
  {
    events != [] ==>
      IsRun(events[..|events| - 1]) && Enabled(After(events[..|events| - 1]), events[|events| - 1])
  }

  ghost function After(events: seq<Event>): State
    requires IsRun(events)
    decreases |events|, 1
  {
    if events == [] then State(map[], Status(map[], {}, map[]), map[])
    else Step(After(events[..|events| - 1]), events[|events| - 1])
  }

  // ---------- Where a compaction writes ----------

  function Low(cd: CompactDef): UserKey {
    if From(cd.thisRange) < From(cd.nextRange) then From(cd.thisRange) else From(cd.nextRange)
  }

  function High(cd: CompactDef): UserKey {
    if To(cd.thisRange) < To(cd.nextRange) then To(cd.nextRange) else To(cd.thisRange)
  }

  predicate Apart(a: KeyRange, b: KeyRange) {
    To(a) < From(b) || To(b) < From(a)
  }

  predicate Outside(t: Table, cd: CompactDef) {
    t.Hi() < Low(cd) || High(cd) < t.Lo()
  }

  predicate ReachApart(a: CompactDef, b: CompactDef) {
    High(a) < Low(b) || High(b) < Low(a)
  }

  /** A table of the target that the plan leaves out lies outside everything it may write. */
  lemma OthersOutside(cd: CompactDef, targets: set<Table>, t: Table)
    requires Planned(cd, targets) && Separate(targets) && t in targets && t !in cd.bot
    ensures Outside(t, cd)
  {
    LoHi(t);
    if cd.bot != [] {
      var lo :| lo in cd.bot && lo.Lo() == From(cd.nextRange);
      var hi :| hi in cd.bot && hi.Hi() == To(cd.nextRange);
      LoHi(lo);
      LoHi(hi);
    }
  }

  /** What holds of a compaction while it runs. */
  ghost predicate Running(cd: CompactDef, targets: set<Table>) {
    && cd.top != [] && AllGood(cd.top) && Covers(cd.thisRange, cd.top)
    && AsSet(cd.bot) <= targets && (forall t | t in cd.bot :: Meets(t, cd.thisRange))
    && if cd.bot == [] then cd.nextRange == cd.thisRange else Covers(cd.nextRange, cd.bot)
  }

  /** The other tables of the target lie outside everything it may write. */
  ghost predicate OthersOut(cd: CompactDef, targets: set<Table>) {
    forall t | t in targets && t !in cd.bot :: Outside(t, cd)
  }

  /** Compactions whose registered target ranges are apart rewrite different tables. */
  lemma SharedTable(a: CompactDef, b: CompactDef, t: Table)
    requires Apart(a.nextRange, b.nextRange) && t.Valid()
    requires a.bot != [] ==> Covers(a.nextRange, a.bot)
    requires b.bot != [] ==> Covers(b.nextRange, b.bot)
    ensures !(t in a.bot && t in b.bot)
  {
    LoHi(t);
  }

  /** What is taken from above lies to one side of what the running compaction may write. */
  lemma ThisOutside(a: CompactDef, b: CompactDef)
    requires Apart(a.thisRange, b.thisRange) && From(b.thisRange) <= To(b.thisRange)
    requires forall t | t in a.bot :: Meets(t, a.thisRange) && !Meets(t, b.thisRange)
    requires if a.bot == [] then a.nextRange == a.thisRange else Covers(a.nextRange, a.bot)
    ensures To(b.thisRange) < Low(a) || High(a) < From(b.thisRange)
  {
    if a.bot != [] {
      var lo :| lo in a.bot && lo.Lo() == From(a.nextRange);
      var hi :| hi in a.bot && hi.Hi() == To(a.nextRange);
    }
  }

  lemma HullOutside(a: CompactDef, b: CompactDef)
    requires To(b.thisRange) < Low(a) || High(a) < From(b.thisRange)
    requires forall t | t in b.bot :: Meets(t, b.thisRange) && Outside(t, a)
    requires if b.bot == [] then b.nextRange == b.thisRange else Covers(b.nextRange, b.bot)
    requires Low(a) <= High(a)
    ensures ReachApart(a, b)
  {
    if b.bot != [] {
      var lo :| lo in b.bot && lo.Lo() == From(b.nextRange);
      var hi :| hi in b.bot && hi.Hi() == To(b.nextRange);
    }
  }

  lemma BotsMiss(a: CompactDef, b: CompactDef, targets: set<Table>)
    requires Separate(targets) && Planned(b, targets) && Running(a, targets) && OthersOut(a, targets)
    requires Apart(a.nextRange, b.nextRange)
    ensures forall t | t in a.bot :: !Meets(t, b.thisRange)
    ensures forall t | t in b.bot :: Outside(t, a)
  {
    hide Covers, Meets, Outside, Apart;
    forall t | t in targets ensures !(t in a.bot && t in b.bot) {
      SharedTable(a, b, t);
    }
    assert forall t | t in a.bot :: t in AsSet(a.bot);
  }

  lemma LowHigh(cd: CompactDef)
    requires From(cd.thisRange) <= To(cd.thisRange)
    ensures Low(cd) <= From(cd.thisRange) <= To(cd.thisRange) <= High(cd)
  {
  }

  /** A new plan next to a running compaction into the same level: what they may write is apart
      exactly when what they take from above is. */
  lemma ReachApartExactly(a: CompactDef, b: CompactDef, targets: set<Table>)
    requires Separate(targets) && Running(a, targets) && OthersOut(a, targets) && Planned(b, targets)
    requires Apart(a.nextRange, b.nextRange)
    ensures ReachApart(a, b) <==> Apart(a.thisRange, b.thisRange)
  {
    hide Separate, AllGood;
    LowHigh(a);
    LowHigh(b);
    BotsMiss(a, b, targets);
    if Apart(a.thisRange, b.thisRange) {
      ThisOutside(a, b);
      HullOutside(a, b);
    }
  }

  // ---------- Invariants ----------

  ghost predicate LevelsOk(s: State) {
    (forall level, t | t in TablesAt(s, level) :: t.Valid()) && IdsUnique(s)
  }

  ghost predicate IdsUnique(s: State) {
    forall a, b, t, u | t in TablesAt(s, a) && u in TablesAt(s, b) && t.id == u.id :: a == b && t == u
  }

  ghost predicate JobOk(s: State, cd: CompactDef) {
    && cd.source != cd.target && !Unordered(cd.target) && AsSet(cd.top) <= TablesAt(s, cd.source)
    && Running(cd, TablesAt(s, cd.target)) && Once(cd.top) && Once(cd.bot)
  }

  /** Two compactions have ranges on a common level that are not apart. */
  predicate Clash(a: CompactDef, b: CompactDef) {
    || (a.source == b.source && !Apart(a.thisRange, b.thisRange))
    || (a.source == b.target && !Apart(a.thisRange, b.nextRange))
    || (a.target == b.source && !Apart(a.nextRange, b.thisRange))
    || (a.target == b.target && !Apart(a.nextRange, b.nextRange))
  }

  ghost predicate JobsOk(s: State) {
    && (forall j | j in s.jobs :: JobOk(s, s.jobs[j]))
    && forall j, k | j in s.jobs && k in s.jobs && j != k :: !Clash(s.jobs[j], s.jobs[k])
  }

  /** The ordered levels are sorted, and no running compaction can change that. */
  ghost predicate SortedOk(s: State) {
    && (forall level | !Unordered(level) :: Separate(TablesAt(s, level)))
    && (forall j | j in s.jobs :: OthersOut(s.jobs[j], TablesAt(s, s.jobs[j].target)))
    && forall j, k | j in s.jobs && k in s.jobs && j != k && s.jobs[j].target == s.jobs[k].target ::
         ReachApart(s.jobs[j], s.jobs[k])
  }

  /** What a new compaction takes from above is apart from what the running compactions into the same
      level do. */
  ghost predicate SourcesApart(s: State, cd: CompactDef) {
    forall j | j in s.jobs && s.jobs[j].target == cd.target :: Apart(s.jobs[j].thisRange, cd.thisRange)
  }

  /** A run all of whose compactions start so. */
  ghost predicate Orderly(events: seq<Event>)
    requires IsRun(events)
    decreases |events|
  {
    events != [] ==>
      var front, e := events[..|events| - 1], events[|events| - 1];
      Orderly(front) && (e.Start? ==> SourcesApart(After(front), e.cd))
  }

  /** `r` is what `cd` registers on the level. */
  predicate Registers(cd: CompactDef, level: nat, r: KeyRange) {
    (cd.source == level && r == cd.thisRange) || (cd.target == level && r == cd.nextRange)
  }

  predicate ListApart(list: seq<KeyRange>) {
    forall i, j | 0 <= i < j < |list| :: Apart(list[i], list[j])
  }

  /** The status table holds the ranges and tables of the running compactions and nothing else. */
  ghost predicate StatusOk(s: State) {
    && (forall level, r :: r in RangesOf(s.status.ranges, level) <==> exists j :: j in s.jobs && Registers(s.jobs[j], level, r))
    && (forall level :: ListApart(RangesOf(s.status.ranges, level)))
    && TablesMarked(s)
  }

  ghost predicate TablesMarked(s: State) {
    forall id :: id in s.status.tables <==> exists j :: j in s.jobs && id in Ids(s.jobs[j].top + s.jobs[j].bot)
  }

  ghost predicate Invariant(s: State) {
    LevelsOk(s) && JobsOk(s) && StatusOk(s)
  }

  // ---------- Running compactions share nothing ----------

  /** Compactions whose ranges do not clash share no table. */
  lemma NothingShared(s: State, a: CompactDef, b: CompactDef, t: Table)
    requires LevelsOk(s) && JobOk(s, a) && JobOk(s, b) && !Clash(a, b)
    ensures !(t in a.top + a.bot && t in b.top + b.bot)
  {
    hide Covers, Separate, Meets, Outside, Apart;
    if t in a.top + a.bot && t in b.top + b.bot {
      assert t in a.top ==> t in AsSet(a.top);
      assert t in b.top ==> t in AsSet(b.top);
      assert t in a.bot ==> t in AsSet(a.bot);
      assert t in b.bot ==> t in AsSet(b.bot);
      SharedClashes(a, b, t);
    }
  }

  lemma SharedClashes(a: CompactDef, b: CompactDef, t: Table)
    requires t.Valid() && Covers(a.thisRange, a.top) && Covers(b.thisRange, b.top)
    requires a.bot != [] ==> Covers(a.nextRange, a.bot)
    requires b.bot != [] ==> Covers(b.nextRange, b.bot)
    ensures t in a.top && t in b.top ==> !Apart(a.thisRange, b.thisRange)
    ensures t in a.top && t in b.bot ==> !Apart(a.thisRange, b.nextRange)
    ensures t in a.bot && t in b.top ==> !Apart(a.nextRange, b.thisRange)
    ensures t in a.bot && t in b.bot ==> !Apart(a.nextRange, b.nextRange)
  {
    LoHi(t);
  }

  // ---------- Starting ----------

  lemma ProperRanges(cd: CompactDef, targets: set<Table>)
    requires Running(cd, targets)
    ensures cd.thisRange == Span(From(cd.thisRange), To(cd.thisRange)) && From(cd.thisRange) <= To(cd.thisRange)
    ensures cd.nextRange == Span(From(cd.nextRange), To(cd.nextRange)) && From(cd.nextRange) <= To(cd.nextRange)
  {
  }

  lemma OverlapIsNotApart(r: KeyRange, q: KeyRange)
    requires r == Span(From(r), To(r)) && q == Span(From(q), To(q))
    ensures r.OverlapsWith(q) <==> !Apart(r, q)
  {
    SpansOverlap(From(r), To(r), From(q), To(q));
  }

  lemma StartRunning(cd: CompactDef, targets: set<Table>)
    requires Planned(cd, targets)
    ensures Running(cd, targets)
    ensures Separate(targets) ==> OthersOut(cd, targets)
  {
    if Separate(targets) {
      forall t | t in targets && t !in cd.bot ensures Outside(t, cd) {
        OthersOutside(cd, targets, t);
      }
    }
  }

  /** What compareAndAdd checks keeps the new ranges apart from those of a running compaction. */
  lemma AdmittedIsApart(s: State, cd: CompactDef, j: JobId)
    requires StatusOk(s) && j in s.jobs && Admits(s.status, cd)
    requires Running(cd, TablesAt(s, cd.target)) && Running(s.jobs[j], TablesAt(s, s.jobs[j].target))
    ensures !Clash(s.jobs[j], cd) && !Clash(cd, s.jobs[j])
  {
    hide ListApart;
    var k := s.jobs[j];
    ProperRanges(cd, TablesAt(s, cd.target));
    ProperRanges(k, TablesAt(s, k.target));
    assert Registers(k, k.source, k.thisRange) && Registers(k, k.target, k.nextRange);
    NotHit(RangesOf(s.status.ranges, cd.source), cd.thisRange);
    NotHit(RangesOf(s.status.ranges, cd.target), cd.nextRange);
    OverlapIsNotApart(k.thisRange, cd.thisRange);
    OverlapIsNotApart(k.thisRange, cd.nextRange);
    OverlapIsNotApart(k.nextRange, cd.thisRange);
    OverlapIsNotApart(k.nextRange, cd.nextRange);
  }

  lemma NotHit(list: seq<KeyRange>, dst: KeyRange)
    requires !Hits(list, dst)
    ensures forall r | r in list :: !r.OverlapsWith(dst)
  {
  }

  lemma StartJobs(s: State, t: State, id: JobId, cd: CompactDef)
    requires Invariant(s) && Enabled(s, Start(id, cd)) && t.levels == s.levels && t.jobs == s.jobs[id := cd]
    ensures JobsOk(t)
  {
    hide Planned, Admits, LevelsOk, StatusOk, Running, Clash, Once;
    StartRunning(cd, TablesAt(s, cd.target));
    forall j | j in s.jobs ensures !Clash(s.jobs[j], cd) && !Clash(cd, s.jobs[j]) {
      assert JobOk(s, s.jobs[j]);
      AdmittedIsApart(s, cd, j);
    }
    forall j | j in t.jobs ensures JobOk(t, t.jobs[j]) {
      assert j != id ==> JobOk(s, s.jobs[j]);
    }
  }

  lemma StartReach(s: State, t: State, id: JobId, cd: CompactDef)
    requires Invariant(s) && SortedOk(s) && Enabled(s, Start(id, cd)) && SourcesApart(s, cd)
    requires t.levels == s.levels && t.jobs == s.jobs[id := cd]
    ensures SortedOk(t)
  {
    hide Planned, Admits, LevelsOk, StatusOk, Running, Once, ReachApart, Separate, Apart, OthersOut, Clash, Separate;
    assert forall level :: TablesAt(t, level) == TablesAt(s, level);
    StartRunning(cd, TablesAt(s, cd.target));
    forall j | j in s.jobs && s.jobs[j].target == cd.target ensures ReachApart(s.jobs[j], cd) && ReachApart(cd, s.jobs[j]) {
      assert JobOk(s, s.jobs[j]);
      AdmittedIsApart(s, cd, j);
      NoClashNext(s.jobs[j], cd);
      ReachApartExactly(s.jobs[j], cd, TablesAt(s, cd.target));
      ReachSymmetric(s.jobs[j], cd);
    }
  }

  lemma NoClashNext(a: CompactDef, b: CompactDef)
    requires !Clash(a, b) && a.target == b.target
    ensures Apart(a.nextRange, b.nextRange)
    ensures a.source == b.source ==> Apart(a.thisRange, b.thisRange)
  {
  }

  lemma ReachSymmetric(a: CompactDef, b: CompactDef)
    ensures ReachApart(a, b) <==> ReachApart(b, a)
  {
  }

  /** Compactions into one level that come from one level are always apart: their ranges there are
      registered. */
  lemma OneSourceIsApart(s: State, id: JobId, cd: CompactDef)
    requires Invariant(s) && Enabled(s, Start(id, cd))
    requires forall j | j in s.jobs && s.jobs[j].target == cd.target :: s.jobs[j].source == cd.source
    ensures SourcesApart(s, cd)
  {
    hide Planned, Admits, LevelsOk, StatusOk, Running, Once, Apart, Clash;
    StartRunning(cd, TablesAt(s, cd.target));
    forall j | j in s.jobs && s.jobs[j].target == cd.target ensures Apart(s.jobs[j].thisRange, cd.thisRange) {
      assert JobOk(s, s.jobs[j]);
      AdmittedIsApart(s, cd, j);
      NoClashNext(s.jobs[j], cd);
    }
  }

  // ---------- The status table ----------

  lemma ListGrows(list: seq<KeyRange>, r: KeyRange)
    requires ListApart(list) && forall q | q in list :: Apart(q, r)
    ensures ListApart(list + [r]) && forall q :: q in list + [r] <==> q in list || q == r
  {
    assert forall i | 0 <= i < |list| :: list[i] in list;
  }

  lemma {:induction false} WithoutHas(list: seq<KeyRange>, dst: KeyRange)
    ensures forall q :: q in Without(list, dst) <==> q in list && q != dst
    ensures ListApart(list) ==> ListApart(Without(list, dst))
  {
    if list != [] {
      var front, last := list[..|list| - 1], list[|list| - 1];
      WithoutHas(front, dst);
      assert list == front + [last];
      if ListApart(list) {
        assert ListApart(front);
        forall q | q in Without(front, dst) ensures Apart(q, last) {
          var i :| 0 <= i < |front| && front[i] == q;
          assert Apart(list[i], list[|list| - 1]);
        }
        ListGrows(Without(front, dst), last);
      }
    }
  }

  /** The ranges of one level after a start. */
  lemma StartRanges(s: State, cd: CompactDef, level: nat)
    requires StatusOk(s) && cd.source != cd.target
    requires forall j | j in s.jobs :: !Clash(s.jobs[j], cd)
    ensures var list := RangesOf(Added(s.status, cd).ranges, level);
            && ListApart(list)
            && forall r :: r in list <==> r in RangesOf(s.status.ranges, level) || Registers(cd, level, r)
  {
    var list := RangesOf(s.status.ranges, level);
    forall r | r in list
      ensures level == cd.source ==> Apart(r, cd.thisRange)
      ensures level == cd.target ==> Apart(r, cd.nextRange)
    {
      var j :| j in s.jobs && Registers(s.jobs[j], level, r);
    }
    if level == cd.source {
      ListGrows(list, cd.thisRange);
    }
    if level == cd.target {
      ListGrows(list, cd.nextRange);
    }
  }

  lemma StartStatus(s: State, t: State, id: JobId, cd: CompactDef)
    requires StatusOk(s) && cd.source != cd.target && id !in s.jobs
    requires forall j | j in s.jobs :: !Clash(s.jobs[j], cd)
    requires t.status == Added(s.status, cd) && t.jobs == s.jobs[id := cd]
    ensures StatusOk(t)
  {
    hide ListApart, Registers, Clash, Register;
    forall level, r ensures r in RangesOf(t.status.ranges, level) <==> exists j :: j in t.jobs && Registers(t.jobs[j], level, r) {
      StartRanges(s, cd, level);
      JobsPlusOne(s.jobs, t.jobs, id, cd, level, r);
    }
    forall level ensures ListApart(RangesOf(t.status.ranges, level)) {
      StartRanges(s, cd, level);
    }
    forall n: nat ensures n in t.status.tables <==> exists j :: j in t.jobs && n in Ids(t.jobs[j].top + t.jobs[j].bot) {
      if j :| j in s.jobs && n in Ids(s.jobs[j].top + s.jobs[j].bot) {
        assert j in t.jobs && t.jobs[j] == s.jobs[j];
      }
      assert id in t.jobs && t.jobs[id] == cd;
    }
  }

  lemma JobsPlusOne(jobs: map<JobId, CompactDef>, more: map<JobId, CompactDef>, id: JobId, cd: CompactDef, level: nat, r: KeyRange)
    requires id !in jobs && more == jobs[id := cd]
    ensures (exists j :: j in more && Registers(more[j], level, r)) <==>
            (exists j :: j in jobs && Registers(jobs[j], level, r)) || Registers(cd, level, r)
  {
    if j :| j in jobs && Registers(jobs[j], level, r) {
      assert j in more && more[j] == jobs[j];
    }
    if Registers(cd, level, r) {
      assert id in more && more[id] == cd;
    }
  }

  /** Two compactions that do not clash register different ranges on a level. */
  lemma RegisterOnce(a: CompactDef, b: CompactDef, level: nat, r: KeyRange)
    requires !Clash(a, b) && Registers(a, level, r) && From(a.thisRange) <= To(a.thisRange) && From(a.nextRange) <= To(a.nextRange)
    ensures !Registers(b, level, r)
  {
  }

  /** The ranges of one level after a finish: those of the finished compaction are gone. */
  lemma FinishRanges(s: State, id: JobId, level: nat)
    requires StatusOk(s) && id in s.jobs && s.jobs[id].source != s.jobs[id].target && !s.jobs[id].nextRange.IsEmpty()
    ensures var list := RangesOf(Deleted(s.status, s.jobs[id]).ranges, level);
            && ListApart(list)
            && forall r :: r in list <==> r in RangesOf(s.status.ranges, level) && !Registers(s.jobs[id], level, r)
  {
    var cd, list := s.jobs[id], RangesOf(s.status.ranges, level);
    WithoutHas(list, cd.thisRange);
    WithoutHas(list, cd.nextRange);
  }

  lemma FinishStatus(s: State, t: State, id: JobId)
    requires Invariant(s) && id in s.jobs && t.status == Deleted(s.status, s.jobs[id])
    requires t.jobs == map j | j in s.jobs && j != id :: s.jobs[j]
    ensures StatusOk(t)
  {
    hide ListApart, Registers, Clash, LevelsOk, Running, Without;
    var cd := s.jobs[id];
    assert JobOk(s, cd);
    ProperRanges(cd, TablesAt(s, cd.target));
    forall level, r ensures r in RangesOf(t.status.ranges, level) <==> exists j :: j in t.jobs && Registers(t.jobs[j], level, r) {
      FinishRanges(s, id, level);
      if j :| j in s.jobs && j != id && Registers(s.jobs[j], level, r) {
        assert j in t.jobs && t.jobs[j] == s.jobs[j];
        if Registers(cd, level, r) {
          RegisterOnce(cd, s.jobs[j], level, r);
        }
      }
    }
    forall level ensures ListApart(RangesOf(t.status.ranges, level)) {
      FinishRanges(s, id, level);
    }
    FinishTables(s, t, id);
  }

  lemma FinishTables(s: State, t: State, id: JobId)
    requires LevelsOk(s) && JobsOk(s) && TablesMarked(s) && id in s.jobs
    requires t.status.tables == s.status.tables - Ids(s.jobs[id].top + s.jobs[id].bot)
    requires t.jobs == map j | j in s.jobs && j != id :: s.jobs[j]
    ensures TablesMarked(t)
  {
    hide LevelsOk, JobsOk;
    var cd := s.jobs[id];
    forall n, j | j in t.jobs && n in Ids(t.jobs[j].top + t.jobs[j].bot) ensures n !in Ids(cd.top + cd.bot) {
      IdsNotShared(s, id, j, n);
    }
    forall n | n in t.status.tables ensures exists j :: j in t.jobs && n in Ids(t.jobs[j].top + t.jobs[j].bot) {
      var j :| j in s.jobs && n in Ids(s.jobs[j].top + s.jobs[j].bot);
      assert j in t.jobs && t.jobs[j] == s.jobs[j];
    }
  }

  lemma IdsNotShared(s: State, i: JobId, j: JobId, n: nat)
    requires LevelsOk(s) && JobsOk(s) && i in s.jobs && j in s.jobs && i != j
    ensures !(n in Ids(s.jobs[i].top + s.jobs[i].bot) && n in Ids(s.jobs[j].top + s.jobs[j].bot))
  {
    hide LevelsOk, JobOk, Clash, ReachApart;
    var a, b := s.jobs[i], s.jobs[j];
    if n in Ids(a.top + a.bot) && n in Ids(b.top + b.bot) {
      var t :| t in a.top + a.bot && t.id == n;
      var u :| u in b.top + b.bot && u.id == n;
      SameTable(s, a, b, t, u);
      NothingShared(s, a, b, t);
    }
  }

  lemma SameTable(s: State, a: CompactDef, b: CompactDef, t: Table, u: Table)
    requires LevelsOk(s) && JobOk(s, a) && JobOk(s, b) && t in a.top + a.bot && u in b.top + b.bot && t.id == u.id
    ensures t == u
  {
    hide Running, Separate, JobOk;
    var at := JobTable(s, a, t);
    var bt := JobTable(s, b, u);
  }

  lemma JobTable(s: State, cd: CompactDef, t: Table) returns (level: nat)
    requires JobOk(s, cd) && t in cd.top + cd.bot
    ensures t in TablesAt(s, level)
  {
    if t in cd.top {
      assert t in AsSet(cd.top);
      level := cd.source;
    } else {
      assert t in AsSet(cd.bot);
      level := cd.target;
    }
  }

  // ---------- Finishing ----------

  /** What a compaction writes lies within the keys of what it read. */
  lemma OutcomeWithin(cd: CompactDef, targets: set<Table>, outcome: seq<Table>, t: Table)
    requires Running(cd, targets) && (forall u | u in targets :: u.Valid())
    requires Files(AsSet(outcome)) <= Files(AsSet(cd.top + cd.bot)) && t in outcome && t.Valid()
    ensures Low(cd) <= t.Lo() && t.Hi() <= High(cd)
  {
    forall e | e in t.entries ensures Low(cd) <= e.key.user <= High(cd) {
      assert t in AsSet(outcome) && e in Files(AsSet(outcome));
      var u :| u in AsSet(cd.top + cd.bot) && e in u.entries;
      assert u in cd.bot ==> u in AsSet(cd.bot);
      InputWithin(cd, targets, u);
      LoHi(u);
    }
    assert t.entries[0] in t.entries && t.entries[|t.entries| - 1] in t.entries;
  }

  lemma InputWithin(cd: CompactDef, targets: set<Table>, u: Table)
    requires Running(cd, targets) && u in cd.top + cd.bot
    ensures Low(cd) <= u.Lo() && u.Hi() <= High(cd)
    ensures u in cd.bot || u.Valid()
  {
    if u in cd.top {
      var i :| 0 <= i < |cd.top| && cd.top[i] == u;
    }
  }

  /** The target level after a finish. */
  lemma FinishTarget(cd: CompactDef, targets: set<Table>, outcome: seq<Table>)
    requires Separate(targets) && Running(cd, targets) && OthersOut(cd, targets) && Separate(AsSet(outcome))
    requires Files(AsSet(outcome)) <= Files(AsSet(cd.top + cd.bot))
    ensures Separate(targets - AsSet(cd.bot) + AsSet(outcome))
  {
    var now := targets - AsSet(cd.bot) + AsSet(outcome);
    forall a, b | a in targets - AsSet(cd.bot) && b in AsSet(outcome) ensures a.Hi() < b.Lo() || b.Hi() < a.Lo() {
      OutcomeWithin(cd, targets, outcome, b);
      assert Outside(a, cd);
    }
  }

  ghost predicate Finishes(s: State, t: State, id: JobId, outcome: seq<Table>) {
    && id in s.jobs && var cd := s.jobs[id];
    && TablesAt(t, cd.target) == TablesAt(s, cd.target) - AsSet(cd.bot) + AsSet(outcome)
    && TablesAt(t, cd.source) == TablesAt(s, cd.source) - AsSet(cd.top)
    && (forall level | level != cd.source && level != cd.target :: TablesAt(t, level) == TablesAt(s, level))
    && t.jobs == map j | j in s.jobs && j != id :: s.jobs[j]
  }

  /** Every table after a finish was there before, or is new at the target. */
  lemma OldOrNew(s: State, t: State, id: JobId, outcome: seq<Table>, level: nat, u: Table)
    requires Finishes(s, t, id, outcome) && u in TablesAt(t, level)
    ensures u in TablesAt(s, level) || (level == s.jobs[id].target && u in outcome)
  {
  }

  lemma FinishIds(s: State, t: State, id: JobId, outcome: seq<Table>)
    requires IdsUnique(s) && Enabled(s, Finish(id, outcome)) && Finishes(s, t, id, outcome)
    ensures IdsUnique(t)
  {
    hide Separate, Files, Finishes;
    forall a, b, v, u | v in TablesAt(t, a) && u in TablesAt(t, b) && v.id == u.id ensures a == b && v == u {
      OldOrNew(s, t, id, outcome, a, v);
      OldOrNew(s, t, id, outcome, b, u);
    }
  }

  lemma FinishLevels(s: State, t: State, id: JobId, outcome: seq<Table>)
    requires Invariant(s) && Enabled(s, Finish(id, outcome)) && Finishes(s, t, id, outcome)
    ensures LevelsOk(t)
  {
    hide IdsUnique, JobsOk, StatusOk, Files, NewId, Finishes;
    FinishIds(s, t, id, outcome);
    forall level, u | u in TablesAt(t, level) ensures u.Valid() {
      OldOrNew(s, t, id, outcome, level, u);
      assert u in outcome ==> u in AsSet(outcome);
    }
  }

  lemma FinishSorted(s: State, t: State, id: JobId, outcome: seq<Table>, level: nat)
    requires SortedOk(s) && Enabled(s, Finish(id, outcome)) && Finishes(s, t, id, outcome) && !Unordered(level)
    requires JobOk(s, s.jobs[id])
    ensures Separate(TablesAt(t, level))
  {
    hide Running, Files, NewId, Separate, ReachApart, OthersOut, Once;
    var cd := s.jobs[id];
    FinishTarget(cd, TablesAt(s, cd.target), outcome);
    SeparateLess(TablesAt(s, cd.source), AsSet(cd.top));
  }

  lemma SeparateLess(tables: set<Table>, gone: set<Table>)
    ensures Separate(tables) ==> Separate(tables - gone)
  {
  }

  /** The tables of a compaction that goes on stay where they are. */
  lemma OtherTablesStay(s: State, t: State, id: JobId, outcome: seq<Table>, k: CompactDef)
    requires LevelsOk(s) && Finishes(s, t, id, outcome) && JobOk(s, s.jobs[id]) && JobOk(s, k) && !Clash(s.jobs[id], k)
    ensures AsSet(k.top) <= TablesAt(t, k.source) && AsSet(k.bot) <= TablesAt(t, k.target)
  {
    hide LevelsOk, Clash, Separate, Covers;
    var cd := s.jobs[id];
    forall u | u in k.top + k.bot ensures u !in AsSet(cd.top) && u !in AsSet(cd.bot) {
      NothingShared(s, cd, k, u);
    }
    assert forall u | u in AsSet(k.top) :: u in k.top + k.bot;
    assert forall u | u in AsSet(k.bot) :: u in k.top + k.bot;
  }

  /** What the other compaction wrote lies outside what this one may write. */
  lemma OthersStayOutside(s: State, t: State, id: JobId, outcome: seq<Table>, k: CompactDef)
    requires LevelsOk(s) && Enabled(s, Finish(id, outcome)) && Finishes(s, t, id, outcome)
    requires Running(s.jobs[id], TablesAt(s, s.jobs[id].target)) && OthersOut(k, TablesAt(s, k.target))
    requires s.jobs[id].target == k.target ==> ReachApart(s.jobs[id], k)
    ensures OthersOut(k, TablesAt(t, k.target))
  {
    hide Running, IdsUnique, NewId, Files;
    var cd := s.jobs[id];
    forall u | u in TablesAt(t, k.target) && u !in k.bot ensures Outside(u, k) {
      OldOrNew(s, t, id, outcome, k.target, u);
      if u in TablesAt(s, k.target) {
        assert Outside(u, k);
      } else {
        assert u in AsSet(outcome);
        OutcomeWithin(cd, TablesAt(s, cd.target), outcome, u);
      }
    }
  }

  /** A compaction that goes on is not disturbed by one that finishes. */
  lemma FinishOther(s: State, t: State, id: JobId, outcome: seq<Table>, k: CompactDef)
    requires LevelsOk(s) && Enabled(s, Finish(id, outcome)) && Finishes(s, t, id, outcome)
    requires JobOk(s, s.jobs[id]) && JobOk(s, k) && !Clash(s.jobs[id], k)
    ensures JobOk(t, k)
  {
    hide LevelsOk, Enabled, Finishes, Clash, Covers, Once;
    OtherTablesStay(s, t, id, outcome, k);
  }

  lemma FinishJobs(s: State, t: State, id: JobId, outcome: seq<Table>)
    requires LevelsOk(s) && JobsOk(s) && Enabled(s, Finish(id, outcome)) && Finishes(s, t, id, outcome)
    ensures JobsOk(t)
  {
    hide LevelsOk, Clash, JobOk;
    forall j | j in t.jobs ensures JobOk(t, t.jobs[j]) {
      FinishOther(s, t, id, outcome, s.jobs[j]);
    }
  }

  // ---------- Main results ----------

  lemma StepFinishes(s: State, id: JobId, outcome: seq<Table>)
    requires Enabled(s, Finish(id, outcome)) && s.jobs[id].source != s.jobs[id].target
    ensures var t := Step(s, Finish(id, outcome));
            Finishes(s, t, id, outcome) && t.status == Deleted(s.status, s.jobs[id])
  {
    hide Separate, Files, NewId, Deleted;
  }

  lemma FinishKeeps(s: State, id: JobId, outcome: seq<Table>)
    requires Invariant(s) && Enabled(s, Finish(id, outcome))
    ensures Invariant(Step(s, Finish(id, outcome)))
  {
    hide LevelsOk, StatusOk, Deleted, Separate, Files, Step, Running, Once, NewId, Clash, ReachApart;
    assert JobOk(s, s.jobs[id]);
    StepFinishes(s, id, outcome);
    var t := Step(s, Finish(id, outcome));
    FinishLevels(s, t, id, outcome);
    FinishJobs(s, t, id, outcome);
    FinishStatus(s, t, id);
  }

  lemma FinishReach(s: State, id: JobId, outcome: seq<Table>)
    requires Invariant(s) && SortedOk(s) && Enabled(s, Finish(id, outcome))
    ensures SortedOk(Step(s, Finish(id, outcome)))
  {
    hide LevelsOk, StatusOk, Deleted, Separate, Files, Step, Running, Once, NewId, Clash, ReachApart, OthersOut;
    assert JobOk(s, s.jobs[id]);
    StepFinishes(s, id, outcome);
    var t := Step(s, Finish(id, outcome));
    forall level | !Unordered(level) ensures Separate(TablesAt(t, level)) {
      FinishSorted(s, t, id, outcome, level);
    }
    forall j | j in t.jobs ensures OthersOut(t.jobs[j], TablesAt(t, t.jobs[j].target)) {
      OthersStayOutside(s, t, id, outcome, s.jobs[j]);
    }
  }

  lemma LevelsSame(s: State, t: State)
    requires LevelsOk(s) && t.levels == s.levels
    ensures LevelsOk(t)
  {
    assert forall level :: TablesAt(t, level) == TablesAt(s, level);
  }

  lemma StepFails(s: State, id: JobId)
    requires Enabled(s, Fail(id))
    ensures id in s.jobs
    ensures var t := Step(s, Fail(id));
            && t.levels == s.levels && t.status == Deleted(s.status, s.jobs[id])
            && t.jobs == (map j | j in s.jobs && j != id :: s.jobs[j])
  {
    hide Deleted;
  }

  lemma SortedLess(s: State, t: State, id: JobId)
    requires SortedOk(s) && t.levels == s.levels && t.jobs == map j | j in s.jobs && j != id :: s.jobs[j]
    ensures SortedOk(t)
  {
    hide Separate, ReachApart, OthersOut;
    assert forall level :: TablesAt(t, level) == TablesAt(s, level);
  }

  lemma JobsLess(s: State, t: State, id: JobId)
    requires JobsOk(s) && t.levels == s.levels && t.jobs == map j | j in s.jobs && j != id :: s.jobs[j]
    ensures JobsOk(t)
  {
    hide Running, Clash, Once;
    assert forall level :: TablesAt(t, level) == TablesAt(s, level);
    forall j | j in t.jobs ensures JobOk(t, t.jobs[j]) {
      assert JobOk(s, s.jobs[j]);
    }
  }

  /** A compaction that fails leaves only its entries to be deleted. */
  lemma FailKeeps(s: State, id: JobId)
    requires Invariant(s) && Enabled(s, Fail(id))
    ensures Invariant(Step(s, Fail(id)))
    ensures SortedOk(s) ==> SortedOk(Step(s, Fail(id)))
  {
    hide LevelsOk, JobsOk, StatusOk, SortedOk, Enabled, Step, Deleted;
    StepFails(s, id);
    var t := Step(s, Fail(id));
    LevelsSame(s, t);
    JobsLess(s, t, id);
    FinishStatus(s, t, id);
    if SortedOk(s) {
      SortedLess(s, t, id);
    }
  }

  lemma StartKeeps(s: State, id: JobId, cd: CompactDef)
    requires Invariant(s) && Enabled(s, Start(id, cd))
    ensures Invariant(Step(s, Start(id, cd)))
  {
    hide LevelsOk, StatusOk, Added, Admits, Clash, Planned, Once, JobOk;
    var t := Step(s, Start(id, cd));
    LevelsSame(s, t);
    StartJobs(s, t, id, cd);
    forall j | j in s.jobs ensures !Clash(s.jobs[j], cd) {
      assert j in t.jobs && t.jobs[j] == s.jobs[j] && t.jobs[id] == cd;
    }
    StartStatus(s, t, id, cd);
  }

  lemma AddTableKeeps(s: State, level: nat, table: Table)
    requires Invariant(s) && Enabled(s, AddTable(level, table))
    ensures Invariant(Step(s, AddTable(level, table)))
  {
    hide StatusOk, Running, Clash, Once, Table.Valid;
    var t := Step(s, AddTable(level, table));
    assert forall l | l != level :: TablesAt(t, l) == TablesAt(s, l);
    assert TablesAt(t, level) == TablesAt(s, level) + {table};
    assert StatusOk(t) by {
      StatusSame(s, t);
    }
    forall j | j in t.jobs ensures JobOk(t, t.jobs[j]) {
      assert JobOk(s, s.jobs[j]);
    }
  }

  lemma AddTableReach(s: State, level: nat, table: Table)
    requires SortedOk(s) && Enabled(s, AddTable(level, table)) && forall j | j in s.jobs :: !Unordered(s.jobs[j].target)
    ensures SortedOk(Step(s, AddTable(level, table)))
  {
    hide ReachApart, Separate, OthersOut, Table.Valid;
    var t := Step(s, AddTable(level, table));
    assert forall l | l != level :: TablesAt(t, l) == TablesAt(s, l);
  }

  lemma StatusSame(s: State, t: State)
    requires StatusOk(s) && t.status == s.status && t.jobs == s.jobs
    ensures StatusOk(t)
  {
  }

  lemma {:induction false} RunsKeep(events: seq<Event>)
    requires IsRun(events)
    ensures Invariant(After(events))
    decreases |events|
  {
    hide LevelsOk, JobsOk, StatusOk, Enabled, Step;
    if events == [] {
      EmptyKeeps();
    } else {
      var s, e := After(events[..|events| - 1]), events[|events| - 1];
      RunsKeep(events[..|events| - 1]);
      match e
      case AddTable(level, table) => AddTableKeeps(s, level, table);
      case Start(id, cd) => StartKeeps(s, id, cd);
      case Finish(id, outcome) => FinishKeeps(s, id, outcome);
      case Fail(id) => FailKeeps(s, id);
    }
  }

  lemma {:induction false} OrderlyKeep(events: seq<Event>)
    requires IsRun(events) && Orderly(events)
    ensures SortedOk(After(events))
    decreases |events|
  {
    hide LevelsOk, StatusOk, Enabled, Step, SortedOk, SourcesApart, JobOk, Clash;
    if events == [] {
      EmptyKeeps();
    } else {
      var s, e := After(events[..|events| - 1]), events[|events| - 1];
      OrderlyKeep(events[..|events| - 1]);
      RunsKeep(events[..|events| - 1]);
      match e
      case AddTable(level, table) =>
        TargetsOrdered(s);
        AddTableReach(s, level, table);
      case Start(id, cd) =>
        StepStarts(s, id, cd);
        StartReach(s, Step(s, e), id, cd);
      case Finish(id, outcome) => FinishReach(s, id, outcome);
      case Fail(id) => FailKeeps(s, id);
    }
  }

  lemma TargetsOrdered(s: State)
    requires JobsOk(s)
    ensures forall j | j in s.jobs :: !Unordered(s.jobs[j].target)
  {
    hide Running, Clash;
    assert forall j | j in s.jobs :: JobOk(s, s.jobs[j]);
  }

  lemma StepStarts(s: State, id: JobId, cd: CompactDef)
    requires Enabled(s, Start(id, cd))
    ensures var t := Step(s, Start(id, cd)); t.levels == s.levels && t.jobs == s.jobs[id := cd]
  {
  }

  lemma EmptyKeeps()
    ensures var s := State(map[], Status(map[], {}, map[]), map[]); Invariant(s) && SortedOk(s)
  {
  }

  /** In every interleaving: the ranges registered on a level are pairwise apart, and running
      compactions share no table. */
  lemma RunningApart(events: seq<Event>, level: nat, j: JobId, k: JobId, t: Table)
    requires IsRun(events)
    ensures ListApart(RangesOf(After(events).status.ranges, level))
    ensures var jobs := After(events).jobs;
            j in jobs && k in jobs && j != k ==> !(t in jobs[j].top + jobs[j].bot && t in jobs[k].top + jobs[k].bot)
  {
    RunsKeep(events);
    var s := After(events);
    if j in s.jobs && k in s.jobs && j != k {
      assert JobOk(s, s.jobs[j]) && JobOk(s, s.jobs[k]);
      NothingShared(s, s.jobs[j], s.jobs[k], t);
    }
  }

  /** delete finds the ranges and the tables of every running compaction. */
  lemma DeleteFinds(events: seq<Event>, id: JobId)
    requires IsRun(events) && id in After(events).jobs
    ensures Found(After(events).status, After(events).jobs[id])
  {
    hide LevelsOk, JobOk, Clash, ReachApart, ListApart, Distinct;
    RunsKeep(events);
    var s := After(events);
    var cd := s.jobs[id];
    RegisteredRanges(s, id);
    assert Ids(cd.top + cd.bot) <= s.status.tables;
    DistinctTables(s, cd);
  }

  lemma RegisteredRanges(s: State, id: JobId)
    requires StatusOk(s) && id in s.jobs
    ensures s.jobs[id].thisRange in RangesOf(s.status.ranges, s.jobs[id].source)
    ensures s.jobs[id].nextRange in RangesOf(s.status.ranges, s.jobs[id].target)
  {
    hide RangesOf, ListApart, TablesMarked;
    var cd := s.jobs[id];
    assert Registers(cd, cd.source, cd.thisRange) && Registers(cd, cd.target, cd.nextRange);
  }

  lemma DistinctTables(s: State, cd: CompactDef)
    requires LevelsOk(s) && JobOk(s, cd)
    ensures Distinct(cd.top + cd.bot)
  {
    hide Running, Separate;
    var all := cd.top + cd.bot;
    forall i, j | 0 <= i < j < |all| ensures all[i].id != all[j].id {
      assert i < |cd.top| ==> all[i] in AsSet(cd.top);
      assert i >= |cd.top| ==> all[i] == cd.bot[i - |cd.top|] && all[i] in AsSet(cd.bot);
      assert j < |cd.top| ==> all[j] in AsSet(cd.top);
      assert j >= |cd.top| ==> all[j] == cd.bot[j - |cd.top|] && all[j] in AsSet(cd.bot);
      BotInTargets(cd, TablesAt(s, cd.target));
    }
  }

  lemma BotInTargets(cd: CompactDef, targets: set<Table>)
    requires Running(cd, targets)
    ensures AsSet(cd.bot) <= targets
  {
  }

  /** The sizes of the running compactions from a level whose ids are below `bound`. */
  ghost function Taking(jobs: map<JobId, CompactDef>, level: nat, bound: nat): int {
    if bound == 0 then 0
    else Taking(jobs, level, bound - 1) + Share(jobs, level, bound - 1)
  }

  ghost function Share(jobs: map<JobId, CompactDef>, level: nat, id: JobId): int {
    if id in jobs && jobs[id].source == level then jobs[id].thisSize else 0
  }

  /** One compaction more or less changes the sum by its share. */
  lemma {:induction false} TakingDiffers(a: map<JobId, CompactDef>, b: map<JobId, CompactDef>, level: nat, bound: nat, id: JobId)
    requires forall j | j != id :: Share(a, level, j) == Share(b, level, j)
    ensures Taking(b, level, bound) - Taking(a, level, bound) == if id < bound then Share(b, level, id) - Share(a, level, id) else 0
  {
    if bound > 0 {
      TakingDiffers(a, b, level, bound - 1, id);
    }
  }

  lemma {:induction false} TakingBeyond(jobs: map<JobId, CompactDef>, level: nat, bound: nat, more: nat)
    requires bound <= more && forall j | j in jobs :: j < bound
    ensures Taking(jobs, level, more) == Taking(jobs, level, bound)
    decreases more
  {
    if bound < more {
      TakingBeyond(jobs, level, bound, more - 1);
    }
  }

  /** The size noted for a level is always the sum of what the compactions running from it take. */
  lemma {:induction false} SizesAddUp(events: seq<Event>, level: nat, bound: nat)
    requires IsRun(events) && forall id | id in After(events).jobs :: id < bound
    ensures SizeAt(After(events).status.delSize, level) == Taking(After(events).jobs, level, bound)
  {
    if events == [] {
      TakingBeyond(map[], level, 0, bound);
    } else {
      var front, e := events[..|events| - 1], events[|events| - 1];
      var s, t := After(front), After(events);
      var id := if e.AddTable? then 0 else e.id;
      var more := if bound < id + 1 then id + 1 else bound;
      forall j | j in s.jobs ensures j < more {
        assert j == id || j in t.jobs;
      }
      SizesAddUp(front, level, more);
      SizesStep(s, e, level, more, id);
      TakingBeyond(t.jobs, level, bound, more);
    }
  }

  lemma SizesStep(s: State, e: Event, level: nat, bound: nat, id: JobId)
    requires Enabled(s, e) && (e.AddTable? || e.id == id) && id < bound
    requires SizeAt(s.status.delSize, level) == Taking(s.jobs, level, bound)
    ensures SizeAt(Step(s, e).status.delSize, level) == Taking(Step(s, e).jobs, level, bound)
  {
    hide Planned, Admits, Files, Separate, NewId, Ids, Taking;
    TakingDiffers(s.jobs, Step(s, e).jobs, level, bound, id);
  }

  /** Every ordered level stays sorted: its tables hold apart stretches of keys. */
  lemma LevelsStaySorted(events: seq<Event>, level: nat)
    requires IsRun(events) && Orderly(events) && !Unordered(level)
    ensures Separate(TablesAt(After(events), level))
  {
    OrderlyKeep(events);
  }

  // ---------- Two sources ----------

  function Live(user: UserKey, ts: nat): Entry {
    Entry(InternalKey(user, ts), false, false, false, 0)
  }

  /** A table that holds everything a compaction has read reaches as far as that goes. */
  lemma WholeReach(cd: CompactDef, targets: set<Table>, t: Table)
    requires Running(cd, targets) && (forall u | u in targets :: u.Valid())
    requires Files({t}) == Files(AsSet(cd.top + cd.bot)) && t.Valid()
    ensures t.Lo() == Low(cd) && t.Hi() == High(cd)
  {
    hide Files;
    assert AsSet([t]) == {t};
    OutcomeWithin(cd, targets, [t], t);
    LoHi(t);
    forall u | u in cd.top + cd.bot ensures t.Lo() <= u.Lo() && u.Hi() <= t.Hi() {
      InputWithin(cd, targets, u);
      assert u in cd.bot ==> u in AsSet(cd.bot);
      InputInside(cd, t, u);
    }
  }

  lemma InputInside(cd: CompactDef, t: Table, u: Table)
    requires Files({t}) == Files(AsSet(cd.top + cd.bot)) && t.Valid() && u in cd.top + cd.bot && u.Valid()
    ensures t.Lo() <= u.Lo() && u.Hi() <= t.Hi()
  {
    LoHi(t);
    assert u in AsSet(cd.top + cd.bot) && u.entries[0] in u.entries && u.entries[|u.entries| - 1] in u.entries;
    assert u.entries[0] in Files({t}) && u.entries[|u.entries| - 1] in Files({t});
  }

  /** Of two admitted compactions into one sorted level, each of which writes what it read to one
      table: the tables fit in one level exactly when what is taken from above is apart. The status
      table alone does not see to that, as only the range of the target's own tables is registered
      there. */
  lemma CollideExactly(a: CompactDef, b: CompactDef, targets: set<Table>, fromA: Table, fromB: Table)
    requires Separate(targets) && Planned(a, targets) && Planned(b, targets) && a.target == b.target
    requires Admits(Added(Status(map[], {}, map[]), a), b)
    requires Files({fromA}) == Files(AsSet(a.top + a.bot)) && Files({fromB}) == Files(AsSet(b.top + b.bot))
    requires fromA.Valid() && fromB.Valid() && fromA != fromB
    ensures Separate({fromA, fromB}) <==> Apart(a.thisRange, b.thisRange)
  {
    hide Planned, Files, Running, OthersOut, Separate, Apart;
    StartRunning(a, targets);
    StartRunning(b, targets);
    AllValid(targets);
    WholeReach(a, targets, fromA);
    WholeReach(b, targets, fromB);
    NextApart(a, b, targets);
    ReachApartExactly(a, b, targets);
    PairSeparate(fromA, fromB);
  }

  lemma AllValid(targets: set<Table>)
    requires Separate(targets)
    ensures forall u | u in targets :: u.Valid()
  {
  }

  lemma PairSeparate(t: Table, u: Table)
    requires t.Valid() && u.Valid() && t != u
    ensures Separate({t, u}) <==> t.Hi() < u.Lo() || u.Hi() < t.Lo()
  {
    assert t in {t, u} && u in {t, u};
  }

  lemma NextApart(a: CompactDef, b: CompactDef, targets: set<Table>)
    requires Running(a, targets) && Running(b, targets) && a.target == b.target
    requires Admits(Added(Status(map[], {}, map[]), a), b)
    ensures Apart(a.nextRange, b.nextRange)
  {
    ProperRanges(a, targets);
    ProperRanges(b, targets);
    var list := RangesOf(Added(Status(map[], {}, map[]), a).ranges, a.target);
    assert list[|list| - 1] == a.nextRange;
    NotHit(list, b.nextRange);
    OverlapIsNotApart(a.nextRange, b.nextRange);
  }

  /** Level 0 and the ordered hot tier feed one level by design, and such a pair of compactions is
      admitted: the second goes into the gap between the target's tables and what the first takes. */
  lemma TwoSourcesCollide() returns (a: CompactDef, b: CompactDef, targets: set<Table>, fromA: Table, fromB: Table)
    ensures a.source == 0 && b.source == 99 && a.target == b.target && Separate(targets)
    ensures Planned(a, targets) && Planned(b, targets)
    ensures Admits(Status(map[], {}, map[]), a) && Admits(Added(Status(map[], {}, map[]), a), b)
    ensures Files({fromA}) == Files(AsSet(a.top + a.bot)) && Files({fromB}) == Files(AsSet(b.top + b.bot))
    ensures fromA.Valid() && fromB.Valid() && !Separate({fromA, fromB})
  {
    hide Planned, Files, Covers, Ids;
    var upper := Table(1, [Live(1, 9), Live(5, 9)]);
    var lower := Table(2, [Live(4, 3), Live(6, 3)]);
    var gap := Table(3, [Live(1, 2), Live(2, 2)]);
    targets := {lower};
    a := CompactDef(0, 3, [upper], [lower], Span(1, 5), Span(4, 6), 0);
    b := CompactDef(99, 3, [gap], [], Span(1, 2), Span(1, 2), 0);
    fromA := Table(4, [Live(1, 9), Live(4, 3), Live(5, 9), Live(6, 3)]);
    fromB := Table(5, [Live(1, 2), Live(2, 2)]);
    CollidePlans(a, b, upper, lower, gap);
    assert RangesOf(Added(Status(map[], {}, map[]), a).ranges, 3) == [Span(4, 6)];
    assert RangesOf(Added(Status(map[], {}, map[]), a).ranges, 99) == [];
    CollideFiles(a, b, fromA, fromB, upper, lower, gap);
    CollideExactly(a, b, targets, fromA, fromB);
  }

  lemma CollidePlans(a: CompactDef, b: CompactDef, upper: Table, lower: Table, gap: Table)
    requires upper == Table(1, [Live(1, 9), Live(5, 9)]) && lower == Table(2, [Live(4, 3), Live(6, 3)])
    requires gap == Table(3, [Live(1, 2), Live(2, 2)])
    requires a == CompactDef(0, 3, [upper], [lower], Span(1, 5), Span(4, 6), 0)
    requires b == CompactDef(99, 3, [gap], [], Span(1, 2), Span(1, 2), 0)
    ensures Planned(a, {lower}) && Planned(b, {lower})
  {
    assert upper in a.top && lower in a.bot && gap in b.top;
  }

  lemma CollideFiles(a: CompactDef, b: CompactDef, fromA: Table, fromB: Table, upper: Table, lower: Table, gap: Table)
    requires upper.entries == [Live(1, 9), Live(5, 9)] && lower.entries == [Live(4, 3), Live(6, 3)]
    requires gap.entries == [Live(1, 2), Live(2, 2)] && a.top == [upper] && a.bot == [lower] && b.top == [gap] && b.bot == []
    requires fromA.entries == [Live(1, 9), Live(4, 3), Live(5, 9), Live(6, 3)] && fromB.entries == gap.entries
    ensures Files({fromA}) == Files(AsSet(a.top + a.bot)) && Files({fromB}) == Files(AsSet(b.top + b.bot))
  {
    assert AsSet(a.top + a.bot) == {upper, lower} && AsSet(b.top + b.bot) == {gap};
    forall e ensures e in Files({fromA}) <==> e in Files({upper, lower}) {
      assert fromA in {fromA} && upper in {upper, lower} && lower in {upper, lower};
      assert e in fromA.entries <==> e in upper.entries || e in lower.entries;
    }
    forall e ensures e in Files({fromB}) <==> e in Files({gap}) {
      assert fromB in {fromB} && gap in {gap};
    }
  }
}
