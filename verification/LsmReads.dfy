/** Two families of runs in which every compaction is lossless, so that reads are exact: those
    without eviction and expiry, whatever the base levels; and those with eviction and expiry in
    which no table is moved past a level that holds one of its keys, and nothing expires over or
    beside an older version of its key. */
module LsmReads {
  import opened Keys
  import opened Compaction
  import opened Snapshots
  import opened Lsm
  import opened LsmSafety
  import opened Wrappers

  function Max(a: nat, b: nat): nat {
    if a < b then b else a
  }

  /** `c` hides the dead version `d` from every read that may still be asked. */
  ghost predicate Covers(c: Entry, d: Entry, discardTs: nat) {
    c.key.user == d.key.user && d.key.ts <= c.key.ts <= Max(d.key.ts, discardTs)
  }

  ghost predicate CoverIn(s: set<Entry>, d: Entry, discardTs: nat) {
    exists c :: c in s && Covers(c, d, discardTs)
  }

  /** A version that stays and is no older than the newest dead one among the inputs rules out that
      anything comes back below it. */
  lemma CoveredIsHarmless(inputs: set<Entry>, rest: set<Entry>, discardTs: nat)
    requires forall d, r | d in inputs && d.dead && d.key.ts <= discardTs && r in rest
      && r.key.user == d.key.user && r.key.ts < d.key.ts :: CoverIn(rest, d, discardTs)
    ensures !Resurrects(inputs, rest, discardTs)
  {
    forall d: Entry, r: Entry | Newest(inputs, d.key.user, discardTs, d) && d.dead && Newest(rest, d.key.user, discardTs, r)
      ensures d.key.ts <= r.key.ts
    {
      assert r.key.ts < d.key.ts ==> CoverIn(rest, d, discardTs);
    }
  }

  lemma CoverLasts(a: set<Entry>, b: set<Entry>, d: Entry, from: nat, to: nat)
    requires CoverIn(a, d, from) && a <= b && from <= to
    ensures CoverIn(b, d, to)
  {
  }

  /** When something overlaps, a version is only removed in favour of a newer one. */
  lemma RemovedForNewer(s: System, inputs: set<Table>, job: Job, c: Entry) returns (f: Entry)
    requires Compacts(s, inputs, true, job) && c in Files(inputs) && c !in Files(job.outcome)
    ensures f in Files(job.outcome) && f.key.user == c.key.user && c.key.ts < f.key.ts <= s.discardTs
  {
    var p := OutcomeIsSubset(s, inputs, true, job);
    assert c in Set(job.merged);
    Removed(p, job.merged, c);
    f :| f in job.merged && Shadows(p, Contents(Filter(p, job.merged)), f, c);
  }

  /** So what covers a dead version among the inputs leaves a cover among the outcome. */
  lemma CoverComesOut(s: System, inputs: set<Table>, job: Job, d: Entry, c: Entry)
    requires Compacts(s, inputs, true, job) && c in Files(inputs) && Covers(c, d, s.discardTs)
    ensures CoverIn(Files(job.outcome), d, s.discardTs)
  {
    hide Compacts, Files;
    if c !in Files(job.outcome) {
      var f := RemovedForNewer(s, inputs, job, c);
      assert Covers(f, d, s.discardTs);
    }
  }

  // ---------- Runs without eviction and expiry ----------

  /** No eviction and no expiry. The base levels are not restricted. */
  predicate Calm(events: seq<Event>) {
    forall e | e in events :: !e.Evict? && !e.Expire?
  }

  /** What writing tombstones to both tiers buys: each dead cold version is covered in the hot tier. */
  ghost predicate Twinned(s: System) {
    forall d | d in Files(ColdTables(s.tree)) && d.dead :: CoverIn(Files(HotTables(s.tree)), d, s.discardTs)
  }

  lemma ColdIsHarmless(s: System, n: nat, next: nat, top: set<Table>, rest: set<Table>)
    requires Twinned(s) && n < next <= |s.tree.levels| && Level(s.tree, n) == top + rest
    ensures !Resurrects(Files(Inputs(s.tree, next, top)), ColdRest(s.tree, n, next, top, rest), s.discardTs)
  {
    hide Covers, ColdRest;
    var inputs, others := Inputs(s.tree, next, top), ColdRest(s.tree, n, next, top, rest);
    HotStays(s.tree, n, next, top, rest);
    forall d | d in Files(inputs) && d.dead ensures CoverIn(others, d, s.discardTs) {
      var t := InFiles(inputs, d);
      assert t in top ==> t in Level(s.tree, n);
      assert t in ColdTables(s.tree);
      CoverLasts(Files(HotTables(s.tree)), others, d, s.discardTs, s.discardTs);
    }
    CoveredIsHarmless(Files(inputs), others, s.discardTs);
  }

  lemma HotStays(a: Tree, n: nat, next: nat, top: set<Table>, rest: set<Table>)
    requires n < next <= |a.levels|
    ensures Files(HotTables(a)) <= ColdRest(a, n, next, top, rest)
    ensures Memory(a) <= ColdRest(a, n, next, top, rest)
    ensures Files(Untouched(a, n, next, top, rest)) <= ColdRest(a, n, next, top, rest)
  {
  }

  /** A hot version that covers a dead cold one is only removed in favour of another that does. */
  lemma CoverSurvives(s: System, t: System, top: set<Table>, rest: set<Table>, job: Job, d: Entry)
    requires WellFormed(s.tree) && HotMove(s, t, top, rest, job)
    requires d in Files(ColdTables(s.tree)) && CoverIn(Files(HotTables(s.tree)), d, s.discardTs)
    ensures CoverIn(Files(HotTables(t.tree)), d, s.discardTs)
  {
    HotFiles(s, t, top, rest, job);
    var c :| c in Files(HotTables(s.tree)) && Covers(c, d, s.discardTs);
    if c !in Files(HotTables(t.tree)) {
      NoColdVersion(s.tree, top, rest, c, d);
      CoverComesOut(s, HotInputs(s.tree, top), job, d, c);
      CoverLasts(Files(job.outcome), Files(HotTables(t.tree)), d, s.discardTs, s.discardTs);
    }
  }

  lemma TwinnedHot(s: System, e: Event)
    requires Structure(s) && Twinned(s) && Enabled(s, e) && e.CompactHot?
    ensures Twinned(Step(s, e))
  {
    hide HotMove, Covers, CoverIn, Files, ColdTables, HotTables, Compacts, HotOverlap, Bottom, WellFormed, MemoryOrder, HotOrder,
      ByAge, Faithful, Step;
    HotMoves(s, e);
    HotLevels(s, e);
    var t := Step(s, e);
    var top, rest := AsSet(s.tree.hot[..e.count]), AsSet(s.tree.hot[e.count..]);
    HotFiles(s, t, top, rest, e.job);
    forall d | d in Files(ColdTables(t.tree)) && d.dead ensures CoverIn(Files(HotTables(t.tree)), d, t.discardTs) {
      CoverSurvives(s, t, top, rest, e.job, d);
    }
  }

  lemma TwinnedFlush(s: System, e: Event)
    requires Structure(s) && Twinned(s) && Enabled(s, e) && e.Flush?
    ensures Twinned(Step(s, e))
  {
    var t := Step(s, e);
    assert FlushMove(s, t, e.hotChoice, e.cold, e.warm);
    FlushedFiles(s, t, e.hotChoice, e.cold, e.warm);
    hide Files, FlushMove;
    forall d | d in Files(ColdTables(t.tree)) && d.dead ensures CoverIn(Files(HotTables(t.tree)), d, t.discardTs) {
      if d in ColdPart(Flushed(s), e.hotChoice) {
        assert d in Files(HotTables(t.tree)) && Covers(d, d, t.discardTs);
      } else {
        CoverLasts(Files(HotTables(s.tree)), Files(HotTables(t.tree)), d, s.discardTs, t.discardTs);
      }
    }
  }

  /** The files of the cold tier only become fewer in a cold compaction, and the hot tier stays. */
  lemma ColdShrinks(s: System, e: Event)
    requires Structure(s) && Enabled(s, e) && (e.CompactL0? || e.CompactLevel?)
    ensures var t := Step(s, e); t.discardTs == s.discardTs && Files(ColdTables(t.tree)) <= Files(ColdTables(s.tree))
    ensures HotTables(Step(s, e).tree) == HotTables(s.tree)
  {
    hide Structure, ColdMove, Compacts, ColdOverlap, Resurrects, SameReads, Files, Bottom;
    ColdEventMoves(s, e);
    if e.CompactL0? {
      ColdMoveExact(s, Step(s, e), 0, e.base, AsSet(s.tree.l0[..e.count]), AsSet(s.tree.l0[e.count..]), e.base, e.job);
    } else {
      ColdMoveExact(s, Step(s, e), e.level, e.level + 1, {e.table}, Level(s.tree, e.level) - {e.table}, e.base, e.job);
    }
  }

  lemma ColdEventMoves(s: System, e: Event)
    requires Structure(s) && Enabled(s, e) && (e.CompactL0? || e.CompactLevel?)
    ensures e.CompactL0? ==>
        ColdMove(s.tree, Step(s, e).tree, 0, e.base, AsSet(s.tree.l0[..e.count]), AsSet(s.tree.l0[e.count..]), e.job.outcome)
    ensures e.CompactLevel? ==>
        ColdMove(s.tree, Step(s, e).tree, e.level, e.level + 1, {e.table}, Level(s.tree, e.level) - {e.table}, e.job.outcome)
  {
    hide ColdMove, Compacts, ColdOverlap, Bottom, MemoryOrder, HotOrder, Faithful, WellFormed, ByAge;
    if e.CompactL0? {
      L0Moves(s.tree, Step(s, e).tree, e.count, e.base, e.job.outcome);
    } else {
      LevelMoves(s.tree, Step(s, e).tree, e.level, e.table, e.job.outcome);
    }
  }

  lemma TwinnedStep(s: System, e: Event)
    requires Structure(s) && Twinned(s) && Enabled(s, e) && !e.Evict? && !e.Expire?
    ensures Twinned(Step(s, e)) && Lossless(s, e)
  {
    hide Resurrects, Structure, Covers, ColdOverlap, Compacts, Files, ColdRest, Step;
    match e
    case CompactL0(count, base, _) =>
      OldestFirstSplits(s.tree.l0, count);
      ColdIsHarmless(s, 0, base, AsSet(s.tree.l0[..count]), AsSet(s.tree.l0[count..]));
      ColdShrinks(s, e);
    case CompactLevel(n, t, _, _) =>
      assert Level(s.tree, n) == {t} + (Level(s.tree, n) - {t});
      ColdIsHarmless(s, n, n + 1, {t}, Level(s.tree, n) - {t});
      ColdShrinks(s, e);
    case CompactHot(_, _) => TwinnedHot(s, e);
    case Flush(_, _, _) => TwinnedFlush(s, e);
    case _ => TwinnedQuiet(s, e);
  }

  lemma OldestFirstSplits(tables: seq<Table>, count: nat)
    requires count <= |tables|
    ensures AsSet(tables) == AsSet(tables[..count]) + AsSet(tables[count..])
  {
    assert tables == tables[..count] + tables[count..];
  }

  /** Steps that leave the files alone. */
  lemma QuietFiles(s: System, e: Event)
    requires Enabled(s, e) && (e.Put? || e.Rotate? || e.Advance?)
    ensures var t := Step(s, e);
            && ColdTables(t.tree) == ColdTables(s.tree) && HotTables(t.tree) == HotTables(s.tree)
            && s.discardTs <= t.discardTs && |t.tree.levels| == |s.tree.levels| && t.tree.l0 == s.tree.l0
            && forall n | 0 <= n <= |s.tree.levels| :: Level(t.tree, n) == Level(s.tree, n)
  {
    TablesSame(s.tree, Step(s, e).tree);
  }

  lemma TwinnedQuiet(s: System, e: Event)
    requires Twinned(s) && Enabled(s, e) && (e.Put? || e.Rotate? || e.Advance?)
    ensures Twinned(Step(s, e))
  {
    hide Covers, Files;
    QuietFiles(s, e);
    var t := Step(s, e);
    forall d | d in Files(ColdTables(t.tree)) && d.dead ensures CoverIn(Files(HotTables(t.tree)), d, t.discardTs) {
      CoverLasts(Files(HotTables(s.tree)), Files(HotTables(t.tree)), d, s.discardTs, t.discardTs);
    }
  }

  lemma {:induction false} CalmIsTwinned(maxLevels: nat, events: seq<Event>)
    requires IsRun(maxLevels, events) && Calm(events)
    ensures Twinned(After(maxLevels, events)) && AllLossless(maxLevels, events)
  {
    if events == [] {
      EmptyTables(maxLevels);
    } else {
      var front, last := events[..|events| - 1], events[|events| - 1];
      assert Calm(front) by {
        assert forall e | e in front :: e in events;
      }
      CalmIsTwinned(maxLevels, front);
      RunsKeep(maxLevels, front);
      hide Structure, Twinned, Enabled, Step, Lossless;
      assert last in events;
      TwinnedStep(After(maxLevels, front), last);
    }
  }

  lemma EmptyTables(maxLevels: nat)
    ensures ColdTables(Empty(maxLevels).tree) == {} && HotTables(Empty(maxLevels).tree) == {}
    ensures forall n | 0 <= n <= maxLevels :: Level(Empty(maxLevels).tree, n) == {}
  {
  }

  // ---------- Runs with eviction that pass over no key ----------

  /** No level strictly between 0 and `next` holds a version of a key in `top`. */
  ghost predicate PassesBy(tree: Tree, next: nat, top: set<Table>) {
    forall n, e, f | 1 <= n < next && n <= |tree.levels| && e in Files(Level(tree, n)) && f in Files(top) ::
      e.key.user != f.key.user
  }

  /** `d` is about to expire, and `r` is an older version of its key. */
  predicate Outdates(d: Entry, r: Entry, keys: set<InternalKey>) {
    !d.dead && d.key in keys && r.key.user == d.key.user && r.key.ts < d.key.ts
  }

  /** What expires has nothing older of its key in the hot tier, if it is in the cold one, and nothing
      older above it: neither on level 0, if it is not there itself, nor on a level over its own. */
  ghost predicate ExpiresApart(s: System, keys: set<InternalKey>) {
    var tree := s.tree;
    && (forall d, r | d in Files(ColdTables(tree)) && r in Files(HotTables(tree)) && Outdates(d, r, keys) :: false)
    && (forall d, r | d in Files(ColdTables(tree)) + Files(HotTables(tree)) && r in Files(Level(tree, 0)) && Outdates(d, r, keys) ::
          d in Files(Level(tree, 0)))
    && forall n, k, d, r | 1 <= k < n <= |tree.levels| && d in Files(Level(tree, n)) && r in Files(Level(tree, k)) ::
         !Outdates(d, r, keys)
  }

  /** What goes to the base level passes over no level that holds one of its keys: the base level is
      the first one with data, at least for these keys. What expires does so apart. */
  ghost predicate TidyStep(s: System, e: Event) {
    match e
    case CompactL0(count, base, _) => count <= |s.tree.l0| && PassesBy(s.tree, base, AsSet(s.tree.l0[..count]))
    case Evict(t, base, _) => PassesBy(s.tree, base, {t})
    case Expire(keys) => ExpiresApart(s, keys)
    case _ => true
  }

  ghost predicate Tidy(maxLevels: nat, events: seq<Event>)
    requires IsRun(maxLevels, events)
    decreases |events|
  {
    events != [] ==>
      && Tidy(maxLevels, events[..|events| - 1])
      && TidyStep(After(maxLevels, events[..|events| - 1]), events[|events| - 1])
  }

  /** A dead cold version is covered in the hot tier if that holds anything older of its key. */
  ghost predicate Shadowed(s: System) {
    forall d, h | d in Files(ColdTables(s.tree)) && h in Files(HotTables(s.tree)) && d.dead
      && h.key.user == d.key.user && h.key.ts < d.key.ts :: CoverIn(Files(HotTables(s.tree)), d, s.discardTs)
  }

  /** A dead version on file is on level 0 as well while that holds anything older of its key: it
      was flushed there later, and level 0 loses its oldest tables first. */
  ghost predicate OnL0(s: System) {
    forall r, d | r in Files(Level(s.tree, 0)) && d in Files(ColdTables(s.tree)) + Files(HotTables(s.tree)) && d.dead
      && r.key.user == d.key.user && r.key.ts < d.key.ts :: d in Files(Level(s.tree, 0))
  }

  /** The hot tier and the levels down to `k`. */
  ghost function Upper(tree: Tree, k: nat): set<Entry>
    requires k <= |tree.levels|
  {
    Files(HotTables(tree)) + set n, e | 0 <= n <= k && e in Files(Level(tree, n)) :: e
  }

  /** A dead version that lies below an older one of its key is covered at or above that, or in the
      hot tier. */
  ghost predicate Backed(s: System) {
    forall n, k, d, r | 1 <= k < n <= |s.tree.levels| && d in Files(Level(s.tree, n)) && d.dead
      && r in Files(Level(s.tree, k)) && r.key.user == d.key.user && r.key.ts < d.key.ts ::
      CoverIn(Upper(s.tree, k), d, s.discardTs)
  }

  ghost predicate Sheltered(s: System) {
    Shadowed(s) && OnL0(s) && Backed(s)
  }

  lemma LevelIsCold(a: Tree, n: nat, e: Entry)
    requires n <= |a.levels| && e in Files(Level(a, n))
    ensures e in Files(ColdTables(a))
  {
    InSomeLevel(a);
  }

  lemma InUpper(a: Tree, n: nat, k: nat, e: Entry)
    requires n <= k <= |a.levels| && e in Files(Level(a, n))
    ensures e in Upper(a, k)
  {
  }

  lemma SameLevelSameTable(a: Tree, n: nat, x: Table, y: Table, e: Entry, f: Entry)
    requires WellFormed(a) && 1 <= n <= |a.levels| && x in Level(a, n) && y in Level(a, n)
    requires e in x.entries && f in y.entries && e.key.user == f.key.user
    ensures x == y
  {
    SeparateUsers(Level(a, n), x, y, e, f);
  }

  /** What a cold compaction of a tidy run is like: from level 0 it takes the oldest tables and passes
      over no key; from another level it takes whole keys to the next one. */
  ghost predicate TidyMove(a: Tree, n: nat, next: nat, top: set<Table>, rest: set<Table>) {
    && n < next <= |a.levels| && Level(a, n) == top + rest && AllValid(top)
    && if n == 0 then PassesBy(a, next, top) && Newer(Files(rest), Files(top))
       else next == n + 1 && forall e, f | e in Files(rest) && f in Files(top) :: e.key.user != f.key.user
  }

  lemma TidyMoves(s: System, e: Event)
    requires Structure(s) && Enabled(s, e) && TidyStep(s, e) && (e.CompactL0? || e.CompactLevel?)
    ensures e.CompactL0? ==> TidyMove(s.tree, 0, e.base, AsSet(s.tree.l0[..e.count]), AsSet(s.tree.l0[e.count..]))
    ensures e.CompactLevel? ==> TidyMove(s.tree, e.level, e.level + 1, {e.table}, Level(s.tree, e.level) - {e.table})
  {
    hide MemoryOrder, HotOrder, Faithful, Compacts, PassesBy, ColdOverlap;
    if e.CompactL0? {
      OldestFirst(s.tree.l0, e.count);
    } else {
      var rest := Level(s.tree, e.level) - {e.table};
      assert Level(s.tree, e.level) == {e.table} + rest;
      forall x, y | x in Files(rest) && y in Files({e.table}) ensures x.key.user != y.key.user {
        var tx := InFiles(rest, x);
        if x.key.user == y.key.user {
          SameLevelSameTable(s.tree, e.level, tx, e.table, x, y);
        }
      }
    }
  }

  /** Something of the key lies below the target, so the compaction finds an overlap. */
  lemma BelowOverlaps(a: Tree, n: nat, next: nat, base: nat, inputs: set<Table>, m: nat, c: Entry, d: Entry)
    requires WellFormed(a) && AllValid(inputs) && next < m <= |a.levels|
    requires c in Files(inputs) && d in Files(Level(a, m)) && c.key.user == d.key.user
    ensures ColdOverlap(a, inputs, n, next, base)
  {
    var x := InFiles(Level(a, m), d);
    var y := InFiles(inputs, c);
    SharedUserTouches(x, d, inputs, y, c);
  }

  lemma InputsValid(a: Tree, n: nat, next: nat, top: set<Table>, rest: set<Table>)
    requires WellFormed(a) && TidyMove(a, n, next, top, rest)
    ensures AllValid(Inputs(a, next, top))
  {
  }

  /** A version that covers a dead one, and is not taken, stays. */
  lemma UpperStays(a: Tree, n: nat, next: nat, top: set<Table>, rest: set<Table>, k: nat, d: Entry, r: Entry, discardTs: nat)
    requires TidyMove(a, n, next, top, rest) && 1 <= k < next && CoverIn(Upper(a, k), d, discardTs)
    requires r.key.user == d.key.user && (if k == n then r in Files(rest) else r in Files(Level(a, k)))
    ensures CoverIn(ColdRest(a, n, next, top, rest), d, discardTs)
  {
    hide ColdRest, Untouched;
    HotStays(a, n, next, top, rest);
    var c :| c in Upper(a, k) && Covers(c, d, discardTs);
    if c !in Files(HotTables(a)) {
      var j :| 0 <= j <= k && c in Files(Level(a, j));
      if j == n {
        FilesUnion(top, rest);
        assert c in Files(rest);
        RestIsUntouched(a, n, next, top, rest, c);
      } else {
        LevelIsUntouched(a, n, next, top, rest, j, c);
      }
    }
  }

  lemma RestIsUntouched(a: Tree, n: nat, next: nat, top: set<Table>, rest: set<Table>, c: Entry)
    requires n < next <= |a.levels| && c in Files(rest)
    ensures c in Files(Untouched(a, n, next, top, rest))
  {
    var x := InFiles(rest, c);
    assert x in Untouched(a, n, next, top, rest);
  }

  lemma LevelIsUntouched(a: Tree, n: nat, next: nat, top: set<Table>, rest: set<Table>, j: nat, c: Entry)
    requires n < next <= |a.levels| && j <= |a.levels| && j != n && j != next && c in Files(Level(a, j))
    ensures c in Files(Untouched(a, n, next, top, rest))
  {
    var x := InFiles(Level(a, j), c);
    assert x in Untouched(a, n, next, top, rest);
  }

  lemma InputLevel(a: Tree, n: nat, next: nat, top: set<Table>, rest: set<Table>, d: Entry)
    requires n < next <= |a.levels| && Level(a, n) == top + rest && d in Files(Inputs(a, next, top))
    ensures (d in Files(top) && d in Files(Level(a, n))) || d in Files(Level(a, next))
  {
    var y := InFiles(Inputs(a, next, top), d);
  }

  /** Whatever older version stays, a cover of the dead one stays as well. */
  lemma ShelteredStays(s: System, n: nat, next: nat, base: nat, top: set<Table>, rest: set<Table>, d: Entry, r: Entry, x: Table)
    requires Structure(s) && Sheltered(s) && TidyMove(s.tree, n, next, top, rest)
    requires !ColdOverlap(s.tree, Inputs(s.tree, next, top), n, next, base)
    requires d in Files(Inputs(s.tree, next, top)) && d.dead && x in Untouched(s.tree, n, next, top, rest) && r in x.entries
    requires r.key.user == d.key.user && r.key.ts < d.key.ts
    ensures CoverIn(ColdRest(s.tree, n, next, top, rest), d, s.discardTs)
  {
    hide MemoryOrder, ColdOverlap, HotOrder, ByAge, Faithful, ColdRest, Upper, Covers, Files;
    var a := s.tree;
    InputLevel(a, n, next, top, rest, d);
    InputsValid(a, n, next, top, rest);
    if x in rest {
      OneOf(rest, x, r);
      if n == 0 {
        L0Stays(s, next, top, rest, d, r);
      } else {
        OneOf(Level(a, n), x, r);
        assert d !in Files(top);
        UpperStays(a, n, next, top, rest, n, d, r, s.discardTs);
      }
    } else if x in Level(a, next) && x !in Bottom(Level(a, next), top) {
      OneOf(Level(a, next) - Bottom(Level(a, next), top), x, r);
      RestSharesNoUser(Level(a, next), top, d, r);
    } else {
      var k :| 0 <= k <= |a.levels| && k != n && k != next && x in Level(a, k);
      OneOf(Level(a, k), x, r);
      if k > next {
        BelowOverlaps(a, n, next, base, Inputs(a, next, top), k, d, r);
      } else if k == 0 {
        L0Covers(s, n, next, top, rest, d, r);
      } else {
        assert n == 0 ==> d !in Files(top);
        UpperStays(a, n, next, top, rest, k, d, r, s.discardTs);
      }
    }
  }

  lemma OneOf(tables: set<Table>, x: Table, e: Entry)
    requires x in tables && e in x.entries
    ensures e in Files(tables)
  {
  }

  /** Level 0 is not touched, and holds the dead version itself. */
  lemma L0Covers(s: System, n: nat, next: nat, top: set<Table>, rest: set<Table>, d: Entry, r: Entry)
    requires OnL0(s) && 0 < n < next <= |s.tree.levels| && Level(s.tree, n) == top + rest
    requires d in Files(Inputs(s.tree, next, top)) && d.dead && r in Files(Level(s.tree, 0))
    requires r.key.user == d.key.user && r.key.ts < d.key.ts
    ensures CoverIn(ColdRest(s.tree, n, next, top, rest), d, s.discardTs)
  {
    hide ColdRest, Untouched, Files;
    InputLevel(s.tree, n, next, top, rest, d);
    LevelIsCold(s.tree, if d in Files(Level(s.tree, next)) then next else n, d);
    LevelIsUntouched(s.tree, n, next, top, rest, 0, d);
    HotStays(s.tree, n, next, top, rest);
    assert Covers(d, d, s.discardTs);
  }

  /** The rest of level 0 holds the dead version itself: the oldest tables cannot. */
  lemma L0Stays(s: System, next: nat, top: set<Table>, rest: set<Table>, d: Entry, r: Entry)
    requires OnL0(s) && TidyMove(s.tree, 0, next, top, rest)
    requires d in Files(Inputs(s.tree, next, top)) && d.dead && r in Files(rest)
    requires r.key.user == d.key.user && r.key.ts < d.key.ts
    ensures d in Files(rest) && CoverIn(ColdRest(s.tree, 0, next, top, rest), d, s.discardTs)
  {
    hide ColdRest, Untouched, Files, PassesBy;
    InputLevel(s.tree, 0, next, top, rest, d);
    LevelIsCold(s.tree, if d in Files(Level(s.tree, next)) then next else 0, d);
    FilesUnion(top, rest);
    RestIsUntouched(s.tree, 0, next, top, rest, d);
    HotStays(s.tree, 0, next, top, rest);
    assert Covers(d, d, s.discardTs);
  }

  lemma TidyIsHarmless(s: System, n: nat, next: nat, base: nat, top: set<Table>, rest: set<Table>)
    requires Structure(s) && Sheltered(s) && TidyMove(s.tree, n, next, top, rest)
    requires !ColdOverlap(s.tree, Inputs(s.tree, next, top), n, next, base)
    ensures !Resurrects(Files(Inputs(s.tree, next, top)), ColdRest(s.tree, n, next, top, rest), s.discardTs)
  {
    hide ColdOverlap, TidyMove, OnL0, Backed, ByAge, HotOrder, WellFormed, Faithful, Covers;
    Unfold(s.tree, n, next, top, rest);
    var a, inputs, others := s.tree, Inputs(s.tree, next, top), ColdRest(s.tree, n, next, top, rest);
    forall d, r | d in Files(inputs) && d.dead && d.key.ts <= s.discardTs && r in others
      && r.key.user == d.key.user && r.key.ts < d.key.ts ensures CoverIn(others, d, s.discardTs)
    {
      InputLevel(a, n, next, top, rest, d);
      LevelIsCold(a, if d in Files(Level(a, next)) then next else n, d);
      HotStays(a, n, next, top, rest);
      if r in Files(Untouched(a, n, next, top, rest)) {
        var x := InFiles(Untouched(a, n, next, top, rest), r);
        ShelteredStays(s, n, next, base, top, rest, d, r, x);
      } else if r in Files(HotTables(a)) {
        CoverLasts(Files(HotTables(a)), others, d, s.discardTs, s.discardTs);
      }
    }
    CoveredIsHarmless(Files(inputs), others, s.discardTs);
  }

  lemma Unfold(a: Tree, n: nat, next: nat, top: set<Table>, rest: set<Table>)
    requires TidyMove(a, n, next, top, rest)
    ensures n < next <= |a.levels| && Level(a, n) == top + rest
  {
  }

  // ---------- A tidy cold compaction keeps the shelter ----------

  /** Where the entries of a level come from. */
  lemma LevelFrom(a: Tree, b: Tree, n: nat, next: nat, top: set<Table>, rest: set<Table>, outcome: set<Table>, i: nat, e: Entry)
    requires ColdMove(a, b, n, next, top, rest, outcome) && Files(outcome) <= Files(Inputs(a, next, top))
    requires i <= |b.levels| && e in Files(Level(b, i))
    ensures e in Files(Level(a, i)) || (i == next && e in Files(top))
    ensures i == n ==> e in Files(rest)
  {
    var x := InFiles(Level(b, i), e);
    if i == next && x in outcome {
      assert e in Files(outcome);
      var y := InFiles(Inputs(a, next, top), e);
    }
  }

  /** Where they go. */
  lemma LevelTo(a: Tree, b: Tree, n: nat, next: nat, top: set<Table>, rest: set<Table>, outcome: set<Table>, i: nat, e: Entry)
    requires ColdMove(a, b, n, next, top, rest, outcome) && i <= |a.levels| && e in Files(Level(a, i))
    ensures e in Files(Level(b, i)) || (e in Files(Inputs(a, next, top)) && (i == next || (i == n && e in Files(top))))
  {
    var x := InFiles(Level(a, i), e);
    if i == n {
      FilesUnion(top, rest);
      assert x in top ==> e in Files(top) && e in Files(Inputs(a, next, top));
    } else if i == next {
      assert x in Bottom(Level(a, next), top) ==> e in Files(Inputs(a, next, top));
    }
  }

  /** A cover among the inputs, where something older than all inputs lies below, comes out on the
      target level. */
  lemma CoverToTarget(s: System, b: Tree, n: nat, next: nat, base: nat, top: set<Table>, rest: set<Table>, job: Job,
                      m: nat, k: nat, d: Entry, c: Entry)
    requires WellFormed(s.tree) && TidyMove(s.tree, n, next, top, rest) && ColdMove(s.tree, b, n, next, top, rest, job.outcome)
    requires var inputs := Inputs(s.tree, next, top); Compacts(s, inputs, ColdOverlap(s.tree, inputs, n, next, base), job)
    requires next <= k < m <= |s.tree.levels| && d in Files(Level(s.tree, m))
    requires c in Files(Inputs(s.tree, next, top)) && Covers(c, d, s.discardTs)
    ensures CoverIn(Upper(b, k), d, s.discardTs)
  {
    hide Compacts, ColdOverlap, Files, TidyMove, WellFormed, Upper;
    Unfold(s.tree, n, next, top, rest);
    var inputs := Inputs(s.tree, next, top);
    InputsValid(s.tree, n, next, top, rest);
    BelowOverlaps(s.tree, n, next, base, inputs, m, c, d);
    CoverComesOut(s, inputs, job, d, c);
    var f :| f in Files(job.outcome) && Covers(f, d, s.discardTs);
    FilesUnion(Level(s.tree, next) - Bottom(Level(s.tree, next), top), job.outcome);
    InUpper(b, next, k, f);
  }

  /** The cover of a dead version that stays below stays at or above `k`, or comes out there. */
  lemma CoverMoves(s: System, b: Tree, n: nat, next: nat, base: nat, top: set<Table>, rest: set<Table>, job: Job,
                   m: nat, from: nat, k: nat, d: Entry, c: Entry)
    requires WellFormed(s.tree) && TidyMove(s.tree, n, next, top, rest) && ColdMove(s.tree, b, n, next, top, rest, job.outcome)
    requires var inputs := Inputs(s.tree, next, top); Compacts(s, inputs, ColdOverlap(s.tree, inputs, n, next, base), job)
    requires from <= k < m <= |s.tree.levels| && d in Files(Level(s.tree, m))
    requires c in Upper(s.tree, from) && Covers(c, d, s.discardTs)
    requires c in Files(top) ==> next <= k || from < n
    ensures CoverIn(Upper(b, k), d, s.discardTs)
  {
    hide Compacts, ColdOverlap, Files, TidyMove, WellFormed, ColdMove, Inputs, Covers;
    Unfold(s.tree, n, next, top, rest);
    HotSame(s.tree, b, n, next, top, rest, job.outcome);
    if c !in Files(HotTables(s.tree)) {
      var j :| 0 <= j <= from && c in Files(Level(s.tree, j));
      LevelTo(s.tree, b, n, next, top, rest, job.outcome, j, c);
      if c in Files(Level(b, j)) {
        InUpper(b, j, k, c);
      } else {
        CoverToTarget(s, b, n, next, base, top, rest, job, m, k, d, c);
      }
    }
  }

  lemma HotSame(a: Tree, b: Tree, n: nat, next: nat, top: set<Table>, rest: set<Table>, outcome: set<Table>)
    requires ColdMove(a, b, n, next, top, rest, outcome)
    ensures HotTables(b) == HotTables(a) && |b.levels| == |a.levels|
  {
  }

  /** Where an older version stays above the target, its cover is not taken. */
  lemma CoverOfStaying(a: Tree, n: nat, next: nat, top: set<Table>, rest: set<Table>, k: nat, r: Entry, c: Entry)
    requires TidyMove(a, n, next, top, rest) && 1 <= k < next && r.key.user == c.key.user
    requires if k == n then r in Files(rest) else r in Files(Level(a, k))
    ensures c in Files(top) ==> k < n
  {
  }

  /** On level 0 the dead version itself covers, or comes out on the target level with the older one. */
  lemma L0CoverMoves(s: System, b: Tree, next: nat, base: nat, top: set<Table>, rest: set<Table>, job: Job,
                     m: nat, d: Entry, r: Entry)
    requires WellFormed(s.tree) && OnL0(s) && TidyMove(s.tree, 0, next, top, rest)
    requires ColdMove(s.tree, b, 0, next, top, rest, job.outcome)
    requires var inputs := Inputs(s.tree, next, top); Compacts(s, inputs, ColdOverlap(s.tree, inputs, 0, next, base), job)
    requires next < m <= |s.tree.levels| && d in Files(Level(s.tree, m)) && d.dead && r in Files(top)
    requires r.key.user == d.key.user && r.key.ts < d.key.ts
    ensures CoverIn(Upper(b, next), d, s.discardTs)
  {
    hide Compacts, ColdOverlap, Files, WellFormed, ColdMove, Inputs, Upper;
    LevelIsCold(s.tree, m, d);
    FilesUnion(top, rest);
    assert d in Files(Level(s.tree, 0)) && Covers(d, d, s.discardTs);
    LevelTo(s.tree, b, 0, next, top, rest, job.outcome, 0, d);
    HotSame(s.tree, b, 0, next, top, rest, job.outcome);
    if d in Files(Level(b, 0)) {
      InUpper(b, 0, next, d);
    } else {
      CoverToTarget(s, b, 0, next, base, top, rest, job, m, next, d, d);
    }
  }

  /** A level above the source keeps what covers. */
  lemma UpperLasts(a: Tree, b: Tree, n: nat, next: nat, top: set<Table>, rest: set<Table>, outcome: set<Table>, k: nat,
                   d: Entry, discardTs: nat)
    requires ColdMove(a, b, n, next, top, rest, outcome) && k < n && CoverIn(Upper(a, k), d, discardTs)
    ensures CoverIn(Upper(b, k), d, discardTs)
  {
    hide ColdMove, Files, Covers, Inputs;
    HotSame(a, b, n, next, top, rest, outcome);
    NextIsBelow(a, b, n, next, top, rest, outcome);
    var c :| c in Upper(a, k) && Covers(c, d, discardTs);
    if c !in Files(HotTables(a)) {
      var j :| 0 <= j <= k && c in Files(Level(a, j));
      LevelTo(a, b, n, next, top, rest, outcome, j, c);
    }
  }

  lemma NextIsBelow(a: Tree, b: Tree, n: nat, next: nat, top: set<Table>, rest: set<Table>, outcome: set<Table>)
    requires ColdMove(a, b, n, next, top, rest, outcome)
    ensures n < next <= |a.levels| && Level(a, n) == top + rest
  {
  }

  lemma BackedCold(s: System, b: Tree, n: nat, next: nat, base: nat, top: set<Table>, rest: set<Table>, job: Job,
                   m: nat, k: nat, d: Entry, r: Entry)
    requires WellFormed(s.tree) && OnL0(s) && Backed(s) && TidyMove(s.tree, n, next, top, rest)
    requires ColdMove(s.tree, b, n, next, top, rest, job.outcome) && Files(job.outcome) <= Files(Inputs(s.tree, next, top))
    requires var inputs := Inputs(s.tree, next, top); Compacts(s, inputs, ColdOverlap(s.tree, inputs, n, next, base), job)
    requires 1 <= k < m <= |s.tree.levels| == |b.levels|
    requires d in Files(Level(b, m)) && d.dead && r in Files(Level(b, k)) && r.key.user == d.key.user && r.key.ts < d.key.ts
    ensures CoverIn(Upper(b, k), d, s.discardTs)
  {
    hide Compacts, ColdOverlap, Files, WellFormed, ColdMove, Upper, Covers, Inputs, OnL0;
    var a := s.tree;
    FilesUnion(top, rest);
    LevelFrom(a, b, n, next, top, rest, job.outcome, m, d);
    LevelFrom(a, b, n, next, top, rest, job.outcome, k, r);
    if d !in Files(Level(a, m)) {
      assert n > 0 && k < n && d in Files(Level(a, n));
      UpperLasts(a, b, n, next, top, rest, job.outcome, k, d, s.discardTs);
    } else if r in Files(Level(a, k)) {
      var c :| c in Upper(a, k) && Covers(c, d, s.discardTs);
      if k < next {
        CoverHasKey(c, d, s.discardTs);
        CoverOfStaying(a, n, next, top, rest, k, r, c);
      }
      CoverMoves(s, b, n, next, base, top, rest, job, m, k, k, d, c);
    } else if n == 0 {
      L0CoverMoves(s, b, next, base, top, rest, job, m, d, r);
    } else {
      assert CoverIn(Upper(a, n), d, s.discardTs);
      var c :| c in Upper(a, n) && Covers(c, d, s.discardTs);
      CoverMoves(s, b, n, next, base, top, rest, job, m, n, k, d, c);
    }
  }

  lemma CoverHasKey(c: Entry, d: Entry, discardTs: nat)
    requires Covers(c, d, discardTs)
    ensures c.key.user == d.key.user
  {
  }

  lemma OnL0Cold(s: System, t: System, n: nat, next: nat, top: set<Table>, rest: set<Table>, job: Job)
    requires OnL0(s) && TidyMove(s.tree, n, next, top, rest) && ColdMove(s.tree, t.tree, n, next, top, rest, job.outcome)
    requires Files(ColdTables(t.tree)) <= Files(ColdTables(s.tree))
    ensures OnL0(t)
  {
    hide Files, ColdTables, Bottom;
    HotSame(s.tree, t.tree, n, next, top, rest, job.outcome);
    FilesUnion(top, rest);
  }

  lemma ShelteredCold(s: System, t: System, n: nat, next: nat, base: nat, top: set<Table>, rest: set<Table>, job: Job)
    requires Structure(s) && Sheltered(s) && TidyMove(s.tree, n, next, top, rest)
    requires ColdMove(s.tree, t.tree, n, next, top, rest, job.outcome)
    requires t.written == s.written && t.discardTs == s.discardTs
    requires var inputs := Inputs(s.tree, next, top); Compacts(s, inputs, ColdOverlap(s.tree, inputs, n, next, base), job)
    ensures Sheltered(t)
  {
    hide Compacts, ColdOverlap, Files, WellFormed, MemoryOrder, HotOrder, ByAge, Faithful, ColdMove, TidyMove, Upper, CoverIn, OnL0,
      SameReads, Resurrects, Inputs, ColdTables;
    Unfold(s.tree, n, next, top, rest);
    ColdMoveExact(s, t, n, next, top, rest, base, job);
    HotSame(s.tree, t.tree, n, next, top, rest, job.outcome);
    OnL0Cold(s, t, n, next, top, rest, job);
    forall m, k, d, r | 1 <= k < m <= |t.tree.levels| && d in Files(Level(t.tree, m)) && d.dead
      && r in Files(Level(t.tree, k)) && r.key.user == d.key.user && r.key.ts < d.key.ts
      ensures CoverIn(Upper(t.tree, k), d, t.discardTs)
    {
      BackedCold(s, t.tree, n, next, base, top, rest, job, m, k, d, r);
    }
  }

  // ---------- So does a hot compaction ----------

  lemma UpperOfParts(a: Tree, b: Tree, k: nat, d: Entry, from: nat, to: nat)
    requires k <= |a.levels| == |b.levels| && from <= to && CoverIn(Upper(a, k), d, from)
    requires forall n | 0 <= n <= k :: Files(Level(a, n)) <= Files(Level(b, n))
    requires CoverIn(Files(HotTables(a)), d, from) ==> CoverIn(Files(HotTables(b)), d, to)
    ensures CoverIn(Upper(b, k), d, to)
  {
    hide Files;
    var c :| c in Upper(a, k) && Covers(c, d, from);
    if c in Files(HotTables(a)) {
      assert CoverIn(Files(HotTables(a)), d, from);
      CoverLasts(Files(HotTables(b)), Upper(b, k), d, to, to);
    } else {
      var j :| 0 <= j <= k && c in Files(Level(a, j));
      assert c in Upper(b, k);
    }
  }

  /** Steps that leave levels 1 and up alone, only add to level 0, and keep covers in the hot tier. */
  lemma BackedLasts(s: System, t: System)
    requires Backed(s) && |t.tree.levels| == |s.tree.levels| && s.discardTs <= t.discardTs
    requires Files(Level(s.tree, 0)) <= Files(Level(t.tree, 0))
    requires forall n | 1 <= n <= |s.tree.levels| :: Level(t.tree, n) == Level(s.tree, n)
    requires forall d | d in Files(ColdTables(s.tree)) && CoverIn(Files(HotTables(s.tree)), d, s.discardTs) ::
        CoverIn(Files(HotTables(t.tree)), d, t.discardTs)
    ensures Backed(t)
  {
    hide Files, Upper, ColdTables, HotTables, Level, CoverIn;
    forall n, k, d, r | 1 <= k < n <= |t.tree.levels| && d in Files(Level(t.tree, n)) && d.dead
      && r in Files(Level(t.tree, k)) && r.key.user == d.key.user && r.key.ts < d.key.ts
      ensures CoverIn(Upper(t.tree, k), d, t.discardTs)
    {
      assert Level(t.tree, n) == Level(s.tree, n) && Level(t.tree, k) == Level(s.tree, k);
      LevelIsCold(s.tree, n, d);
      UpperOfParts(s.tree, t.tree, k, d, s.discardTs, t.discardTs);
    }
  }

  lemma ShelteredHot(s: System, e: Event)
    requires Structure(s) && Sheltered(s) && Enabled(s, e) && e.CompactHot?
    ensures Sheltered(Step(s, e))
  {
    hide HotMove, Covers, CoverIn, Files, Backed, MemoryOrder, HotOrder, ByAge, Faithful, Compacts, Step, ColdTables, HotTables, Level,
      SameReads, WellFormed, HotOverlap, Bottom;
    HotMoves(s, e);
    HotLevels(s, e);
    var t := Step(s, e);
    var top, rest := AsSet(s.tree.hot[..e.count]), AsSet(s.tree.hot[e.count..]);
    HotFiles(s, t, top, rest, e.job);
    HotMoveSafe(s, t, top, rest, e.job);
    forall d | d in Files(ColdTables(t.tree)) && CoverIn(Files(HotTables(s.tree)), d, s.discardTs)
      ensures CoverIn(Files(HotTables(t.tree)), d, t.discardTs)
    {
      CoverSurvives(s, t, top, rest, e.job, d);
    }
    BackedLasts(s, t);
  }

  lemma HotLevels(s: System, e: Event)
    requires Enabled(s, e) && e.CompactHot?
    ensures var t := Step(s, e); t.discardTs == s.discardTs && |t.tree.levels| == |s.tree.levels|
    ensures forall n | 0 <= n <= |s.tree.levels| :: Level(Step(s, e).tree, n) == Level(s.tree, n)
  {
    hide Compacts;
  }

  // ---------- And an eviction that passes over no key ----------

  lemma EvictFrom(a: Tree, b: Tree, base: nat, table: Table, outcome: set<Table>, i: nat, e: Entry)
    requires EvictMove(a, b, base, table, outcome) && Files(outcome) <= Files(EvictInputs(a, base, table))
    requires i <= |b.levels| && e in Files(Level(b, i))
    ensures e in Files(Level(a, i)) || (i == base && e in table.entries)
  {
    var x := InFiles(Level(b, i), e);
    if i == base && x in outcome {
      assert e in Files(outcome);
      var y := InFiles(EvictInputs(a, base, table), e);
    }
  }

  lemma EvictTo(a: Tree, b: Tree, base: nat, table: Table, outcome: set<Table>, i: nat, e: Entry)
    requires EvictMove(a, b, base, table, outcome) && i <= |a.levels| && e in Files(Level(a, i))
    ensures e in Files(Level(b, i)) || (i == base && e in Files(EvictInputs(a, base, table)))
  {
    var x := InFiles(Level(a, i), e);
    if i == base {
      assert x in Bottom(Level(a, base), {table}) ==> e in Files(EvictInputs(a, base, table));
    }
  }

  lemma EvictHotTo(a: Tree, b: Tree, base: nat, table: Table, outcome: set<Table>, e: Entry)
    requires EvictMove(a, b, base, table, outcome) && e in Files(HotTables(a))
    ensures e in Files(HotTables(b)) || (e in table.entries && e in Files(EvictInputs(a, base, table)))
  {
    var x := InFiles(HotTables(a), e);
    if x != table {
      assert x in HotTables(b);
    } else {
      assert table in EvictInputs(a, base, table);
    }
  }

  /** A cover among the inputs of an eviction comes out on the base level. */
  lemma CoverToBase(s: System, b: Tree, base: nat, table: Table, job: Job, k: nat, d: Entry, c: Entry)
    requires WellFormed(s.tree) && EvictMove(s.tree, b, base, table, job.outcome)
    requires var inputs := EvictInputs(s.tree, base, table); Compacts(s, inputs, HotOverlap(s.tree, inputs), job)
    requires base <= k <= |s.tree.levels| && d in Files(ColdTables(s.tree))
    requires c in Files(EvictInputs(s.tree, base, table)) && Covers(c, d, s.discardTs)
    ensures CoverIn(Upper(b, k), d, s.discardTs)
  {
    var inputs := EvictInputs(s.tree, base, table);
    var x := InFiles(ColdTables(s.tree), d);
    var y := InFiles(inputs, c);
    ColdIsValid(s.tree, x);
    SharedUserTouches(x, d, inputs, y, c);
    assert HotOverlap(s.tree, inputs);
    hide Compacts, Files, WellFormed, Upper;
    CoverComesOut(s, inputs, job, d, c);
    var f :| f in Files(job.outcome) && Covers(f, d, s.discardTs);
    FilesUnion(Level(s.tree, base) - Bottom(Level(s.tree, base), {table}), job.outcome);
    InUpper(b, base, k, f);
  }

  lemma HotRestStays(a: Tree, b: Tree, base: nat, table: Table, outcome: set<Table>, c: Entry, h: Entry)
    requires WellFormed(a) && HotOrder(a) && EvictMove(a, b, base, table, outcome)
    requires c in table.entries && h in Files(HotTables(b)) && h.key.user == c.key.user
    ensures c.key.ts < h.key.ts
  {
    var x := InFiles(HotTables(b), h);
    OneOf(a.hotOrd, table, c);
    if x in AsSet(b.hot) {
      OneOf(AsSet(a.hot), x, h);
    } else {
      SeparateUsers(a.hotOrd, x, table, h, c);
    }
  }

  lemma PassedUsers(a: Tree, base: nat, table: Table, k: nat, r: Entry)
    requires PassesBy(a, base, {table}) && 1 <= k < base && k <= |a.levels| && r in Files(Level(a, k))
    ensures forall e | e in table.entries :: e.key.user != r.key.user
  {
    forall e | e in table.entries ensures e in Files({table}) {
      OneOf({table}, table, e);
    }
  }

  lemma EvictedIsHot(a: Tree, table: Table, e: Entry)
    requires table in a.hotOrd && e in table.entries
    ensures e in Files(HotTables(a))
  {
    OneOf(HotTables(a), table, e);
  }

  /** The cover of a dead cold version stays at or above `k`, or comes out at the base level, which is
      not below `k`: an older version of the key is on level `k`. */
  lemma EvictedCover(s: System, b: Tree, base: nat, table: Table, job: Job, from: nat, k: nat, d: Entry, r: Entry)
    requires WellFormed(s.tree) && EvictMove(s.tree, b, base, table, job.outcome) && PassesBy(s.tree, base, {table})
    requires var inputs := EvictInputs(s.tree, base, table); Compacts(s, inputs, HotOverlap(s.tree, inputs), job)
    requires from <= k <= |s.tree.levels| == |b.levels| && 1 <= k && d in Files(ColdTables(s.tree))
    requires r.key.user == d.key.user && (k == base || r in Files(Level(s.tree, k)))
    requires CoverIn(Upper(s.tree, from), d, s.discardTs)
    ensures CoverIn(Upper(b, k), d, s.discardTs)
  {
    hide Compacts, WellFormed, HotOverlap, EvictMove, Files, PassesBy;
    var a := s.tree;
    var c :| c in Upper(a, from) && Covers(c, d, s.discardTs);
    if c in Files(HotTables(a)) {
      EvictHotTo(a, b, base, table, job.outcome, c);
      if c !in Files(HotTables(b)) {
        if k < base {
          PassedUsers(a, base, table, k, r);
        }
        CoverToBase(s, b, base, table, job, k, d, c);
      }
    } else {
      var j :| 0 <= j <= from && c in Files(Level(a, j));
      EvictTo(a, b, base, table, job.outcome, j, c);
      if c in Files(Level(b, j)) {
        InUpper(b, j, k, c);
      } else {
        CoverToBase(s, b, base, table, job, k, d, c);
      }
    }
  }

  lemma BackedEvict(s: System, b: Tree, base: nat, table: Table, job: Job, m: nat, k: nat, d: Entry, r: Entry)
    requires WellFormed(s.tree) && Shadowed(s) && Backed(s) && EvictMove(s.tree, b, base, table, job.outcome)
    requires PassesBy(s.tree, base, {table}) && Files(job.outcome) <= Files(EvictInputs(s.tree, base, table))
    requires var inputs := EvictInputs(s.tree, base, table); Compacts(s, inputs, HotOverlap(s.tree, inputs), job)
    requires 1 <= k < m <= |s.tree.levels| == |b.levels|
    requires d in Files(Level(b, m)) && d.dead && r in Files(Level(b, k)) && r.key.user == d.key.user && r.key.ts < d.key.ts
    ensures CoverIn(Upper(b, k), d, s.discardTs)
  {
    hide Compacts, WellFormed, HotOverlap, Upper, Covers, Files, CoverIn, PassesBy;
    var a := s.tree;
    EvictFrom(a, b, base, table, job.outcome, m, d);
    EvictFrom(a, b, base, table, job.outcome, k, r);
    if d !in Files(Level(a, m)) {
      PassedUsers(a, base, table, k, r);
    } else {
      LevelIsCold(a, m, d);
      if r in Files(Level(a, k)) {
        EvictedCover(s, b, base, table, job, k, k, d, r);
      } else {
        EvictedIsHot(a, table, r);
        HotIsUpper(a, d, s.discardTs);
        EvictedCover(s, b, base, table, job, 0, k, d, r);
      }
    }
  }

  lemma HotIsUpper(a: Tree, d: Entry, discardTs: nat)
    requires CoverIn(Files(HotTables(a)), d, discardTs)
    ensures CoverIn(Upper(a, 0), d, discardTs)
  {
    hide Files;
    CoverLasts(Files(HotTables(a)), Upper(a, 0), d, discardTs, discardTs);
  }

  lemma ShadowedEvict(s: System, t: System, base: nat, table: Table, job: Job)
    requires Structure(s) && Shadowed(s) && EvictMove(s.tree, t.tree, base, table, job.outcome) && t.discardTs == s.discardTs
    requires Files(ColdTables(t.tree)) <= Files(ColdTables(s.tree)) + Set(table.entries)
    requires Files(HotTables(t.tree)) <= Files(HotTables(s.tree))
    ensures Shadowed(t)
  {
    hide Files, ColdTables, MemoryOrder, ByAge, Faithful, EvictMove, WellFormed, HotOrder, HotTables;
    forall d, h | d in Files(ColdTables(t.tree)) && h in Files(HotTables(t.tree)) && d.dead
      && h.key.user == d.key.user && h.key.ts < d.key.ts ensures CoverIn(Files(HotTables(t.tree)), d, t.discardTs)
    {
      if d !in Files(ColdTables(s.tree)) {
        HotRestStays(s.tree, t.tree, base, table, job.outcome, d, h);
      } else {
        var c :| c in Files(HotTables(s.tree)) && Covers(c, d, s.discardTs);
        EvictHotTo(s.tree, t.tree, base, table, job.outcome, c);
        if c !in Files(HotTables(t.tree)) {
          HotRestStays(s.tree, t.tree, base, table, job.outcome, c, h);
          FurtherUp(s, t, base, table, job, c, d, h);
        }
      }
    }
  }

  lemma FurtherUp(s: System, t: System, base: nat, table: Table, job: Job, c: Entry, d: Entry, h: Entry)
    requires Covers(c, d, s.discardTs) && c.key.ts < h.key.ts
    ensures d.key.ts < h.key.ts
  {
  }

  lemma OnL0Evict(s: System, t: System, base: nat, table: Table, job: Job)
    requires OnL0(s) && EvictMove(s.tree, t.tree, base, table, job.outcome)
    requires Files(ColdTables(t.tree)) + Files(HotTables(t.tree)) <= Files(ColdTables(s.tree)) + Files(HotTables(s.tree))
    ensures OnL0(t)
  {
    hide Files, ColdTables, HotTables, Bottom;
  }

  lemma ShelteredEvict(s: System, e: Event)
    requires Structure(s) && Sheltered(s) && Enabled(s, e) && e.Evict? && PassesBy(s.tree, e.base, {e.table})
    ensures Sheltered(Step(s, e))
  {
    hide Compacts, Files, WellFormed, MemoryOrder, HotOrder, ByAge, Faithful, HotOverlap, Upper, CoverIn, Covers,
      SameReads, PassesBy, Step, Shadowed, OnL0, Bottom, Level;
    EvictMoves(s, e);
    var t := Step(s, e);
    assert |t.tree.levels| == |s.tree.levels|;
    hide EvictMove;
    EvictMoveSafe(s, t, e.base, e.table, e.job);
    EvictOnFile(s.tree, t.tree, e.base, e.table, e.job.outcome);
    ShadowedEvict(s, t, e.base, e.table, e.job);
    OnL0Evict(s, t, e.base, e.table, e.job);
    forall m, k, d, r | 1 <= k < m <= |t.tree.levels| && d in Files(Level(t.tree, m)) && d.dead
      && r in Files(Level(t.tree, k)) && r.key.user == d.key.user && r.key.ts < d.key.ts
      ensures CoverIn(Upper(t.tree, k), d, t.discardTs)
    {
      BackedEvict(s, t.tree, e.base, e.table, e.job, m, k, d, r);
    }
  }

  // ---------- And every other step ----------

  lemma ShelteredQuiet(s: System, e: Event)
    requires Sheltered(s) && Enabled(s, e) && (e.Put? || e.Rotate? || e.Advance?)
    ensures Sheltered(Step(s, e))
  {
    QuietFiles(s, e);
    hide Files, Covers, CoverIn, Upper, Step;
    var t := Step(s, e);
    forall d, h | d in Files(ColdTables(t.tree)) && h in Files(HotTables(t.tree)) && d.dead
      && h.key.user == d.key.user && h.key.ts < d.key.ts ensures CoverIn(Files(HotTables(t.tree)), d, t.discardTs)
    {
      CoverLasts(Files(HotTables(s.tree)), Files(HotTables(t.tree)), d, s.discardTs, t.discardTs);
    }
    forall d | CoverIn(Files(HotTables(s.tree)), d, s.discardTs) ensures CoverIn(Files(HotTables(t.tree)), d, t.discardTs) {
      CoverLasts(Files(HotTables(s.tree)), Files(HotTables(t.tree)), d, s.discardTs, t.discardTs);
    }
    BackedLasts(s, t);
  }

  // ---------- And what expires apart ----------

  lemma AgedFrom(es: set<Entry>, keys: set<InternalKey>, d: Entry) returns (x: Entry)
    requires d in AgedEntries(es, keys)
    ensures x in es && d == Aged(x, keys) && d.key == x.key && (d.dead <==> x.dead || x.key in keys)
  {
    x :| x in es && d == Aged(x, keys);
  }

  lemma AgedCover(es: set<Entry>, keys: set<InternalKey>, d: Entry, x: Entry, discardTs: nat)
    requires CoverIn(es, x, discardTs) && d.key == x.key
    ensures CoverIn(AgedEntries(es, keys), d, discardTs)
  {
    var c :| c in es && Covers(c, x, discardTs);
    assert Aged(c, keys) in AgedEntries(es, keys) && Covers(Aged(c, keys), d, discardTs);
  }

  lemma AgedUpper(a: Tree, keys: set<InternalKey>, k: nat, d: Entry, x: Entry, discardTs: nat)
    requires k <= |a.levels| && CoverIn(Upper(a, k), x, discardTs) && d.key == x.key
    ensures |AgedTree(a, keys).levels| == |a.levels| && CoverIn(Upper(AgedTree(a, keys), k), d, discardTs)
  {
    hide Files, AgedTables, AgedTree, Level, HotTables;
    var b := AgedTree(a, keys);
    AgedLevels(a, keys);
    AgedContents(a, keys);
    var c :| c in Upper(a, k) && Covers(c, x, discardTs);
    assert Covers(Aged(c, keys), d, discardTs);
    if c in Files(HotTables(a)) {
      assert Aged(c, keys) in Files(HotTables(b));
    } else {
      var n :| 0 <= n <= k && c in Files(Level(a, n));
      AgedFiles(Level(a, n), keys);
      assert Aged(c, keys) in Files(Level(b, n));
    }
  }

  lemma LevelAged(a: Tree, keys: set<InternalKey>)
    ensures |AgedTree(a, keys).levels| == |a.levels|
    ensures forall n | 0 <= n <= |a.levels| :: Files(Level(AgedTree(a, keys), n)) == AgedEntries(Files(Level(a, n)), keys)
  {
    hide Files, AgedTables, AgedTree, Level, AgedEntries;
    AgedLevels(a, keys);
    forall n | 0 <= n <= |a.levels| ensures Files(Level(AgedTree(a, keys), n)) == AgedEntries(Files(Level(a, n)), keys) {
      AgedFiles(Level(a, n), keys);
    }
  }

  lemma ExpireSteps(s: System, e: Event)
    requires Enabled(s, e) && e.Expire?
    ensures Step(s, e) == s.(tree := AgedTree(s.tree, e.keys), written := AgedEntries(s.written, e.keys))
  {
    hide AgedTree, AgedEntries;
  }

  lemma ShelteredExpire(s: System, e: Event)
    requires Sheltered(s) && Enabled(s, e) && e.Expire? && ExpiresApart(s, e.keys)
    ensures Sheltered(Step(s, e))
  {
    hide Files, AgedEntries, AgedTree, Level, Upper, CoverIn, ColdTables, HotTables, Enabled, Step, Aged;
    var keys, a, t := e.keys, s.tree, Step(s, e);
    ExpireSteps(s, e);
    AgedContents(a, keys);
    LevelAged(a, keys);
    forall d, h | d in Files(ColdTables(t.tree)) && h in Files(HotTables(t.tree)) && d.dead
      && h.key.user == d.key.user && h.key.ts < d.key.ts ensures CoverIn(Files(HotTables(t.tree)), d, t.discardTs)
    {
      var x := AgedFrom(Files(ColdTables(a)), keys, d);
      var r := AgedFrom(Files(HotTables(a)), keys, h);
      assert !Outdates(x, r, keys);
      AgedCover(Files(HotTables(a)), keys, d, x, s.discardTs);
    }
    forall r, d | r in Files(Level(t.tree, 0)) && d in Files(ColdTables(t.tree)) + Files(HotTables(t.tree)) && d.dead
      && r.key.user == d.key.user && r.key.ts < d.key.ts ensures d in Files(Level(t.tree, 0))
    {
      OnL0Aged(s, keys, r, d);
    }
    forall n, k, d, r | 1 <= k < n <= |t.tree.levels| && d in Files(Level(t.tree, n)) && d.dead
      && r in Files(Level(t.tree, k)) && r.key.user == d.key.user && r.key.ts < d.key.ts
      ensures CoverIn(Upper(t.tree, k), d, t.discardTs)
    {
      var x := AgedFrom(Files(Level(a, n)), keys, d);
      var y := AgedFrom(Files(Level(a, k)), keys, r);
      assert !Outdates(x, y, keys);
      AgedUpper(a, keys, k, d, x, s.discardTs);
    }
  }

  lemma OnL0Aged(s: System, keys: set<InternalKey>, r: Entry, d: Entry)
    requires OnL0(s) && ExpiresApart(s, keys)
    requires r in AgedEntries(Files(Level(s.tree, 0)), keys) && d.dead && r.key.user == d.key.user && r.key.ts < d.key.ts
    requires d in AgedEntries(Files(ColdTables(s.tree)), keys) + AgedEntries(Files(HotTables(s.tree)), keys)
    ensures d in AgedEntries(Files(Level(s.tree, 0)), keys)
  {
    hide Files, Level, ColdTables, HotTables;
    var y := AgedFrom(Files(Level(s.tree, 0)), keys, r);
    var x;
    if d in AgedEntries(Files(ColdTables(s.tree)), keys) {
      x := AgedFrom(Files(ColdTables(s.tree)), keys, d);
    } else {
      x := AgedFrom(Files(HotTables(s.tree)), keys, d);
    }
    assert x in Files(Level(s.tree, 0));
  }

  lemma FlushFacts(s: System, e: Event)
    requires Structure(s) && Enabled(s, e) && e.Flush?
    ensures var t := Step(s, e);
            && t.discardTs == s.discardTs && |t.tree.levels| == |s.tree.levels| && s.tree.mem != []
            && (forall n | 1 <= n <= |s.tree.levels| :: Level(t.tree, n) == Level(s.tree, n))
            && Files(Level(t.tree, 0)) == Files(Level(s.tree, 0)) + ColdPart(Flushed(s), e.hotChoice)
            && Files(ColdTables(t.tree)) == Files(ColdTables(s.tree)) + ColdPart(Flushed(s), e.hotChoice)
            && Files(HotTables(t.tree)) == Files(HotTables(s.tree)) + HotPart(Flushed(s), e.hotChoice)
            && Newer(Flushed(s), Files(ColdTables(s.tree))) && Newer(Flushed(s), Files(HotTables(s.tree)))
  {
    var t := Step(s, e);
    assert FlushMove(s, t, e.hotChoice, e.cold, e.warm);
    hide FlushMove, WellFormed, HotOrder, ByAge, Faithful, Files;
    FlushedTables(s, t, e.hotChoice, e.cold, e.warm);
    FlushedFiles(s, t, e.hotChoice, e.cold, e.warm);
    FlushedLevel0(s, t, e.hotChoice, e.cold, e.warm);
    assert Flushed(s) <= Memory(s.tree);
  }

  lemma FlushedLevel0(s: System, t: System, hotChoice: set<Entry>, cold: seq<Table>, warm: seq<Table>)
    requires FlushMove(s, t, hotChoice, cold, warm)
    ensures Files(Level(t.tree, 0)) == Files(Level(s.tree, 0)) + ColdPart(Flushed(s), hotChoice)
    ensures t.discardTs == s.discardTs && |t.tree.levels| == |s.tree.levels| && s.tree.mem != []
  {
    FlushedTables(s, t, hotChoice, cold, warm);
    HoldsFiles(cold, ColdPart(Flushed(s), hotChoice));
    FilesUnion(Level(s.tree, 0), AsSet(cold));
  }

  lemma ShelteredFlush(s: System, e: Event)
    requires Structure(s) && Sheltered(s) && Enabled(s, e) && e.Flush?
    ensures Sheltered(Step(s, e))
  {
    FlushFacts(s, e);
    hide Files, Upper, Step, Enabled, WellFormed, MemoryOrder, HotOrder, ByAge, Faithful, ColdTables, HotTables, Level, Flushed, Backed, CoverIn;
    var t := Step(s, e);
    forall d | d in Files(ColdTables(s.tree)) && CoverIn(Files(HotTables(s.tree)), d, s.discardTs)
      ensures CoverIn(Files(HotTables(t.tree)), d, t.discardTs)
    {
      CoverLasts(Files(HotTables(s.tree)), Files(HotTables(t.tree)), d, s.discardTs, t.discardTs);
    }
    forall d | d in ColdPart(Flushed(s), e.hotChoice) && d.dead ensures CoverIn(Files(HotTables(t.tree)), d, t.discardTs) {
      CoversItself(Files(HotTables(t.tree)), d, t.discardTs);
    }
    BackedLasts(s, t);
  }

  lemma CoversItself(s: set<Entry>, d: Entry, discardTs: nat)
    requires d in s
    ensures CoverIn(s, d, discardTs)
  {
    assert Covers(d, d, discardTs);
  }

  lemma ShelteredStep(s: System, e: Event)
    requires Structure(s) && Sheltered(s) && Enabled(s, e) && TidyStep(s, e)
    ensures Sheltered(Step(s, e)) && Lossless(s, e)
  {
    match e
    case CompactL0(_, _, _) => ShelteredColdStep(s, e);
    case CompactLevel(_, _, _, _) => ShelteredColdStep(s, e);
    case CompactHot(_, _) => ShelteredHot(s, e);
    case Evict(_, _, _) => ShelteredEvict(s, e);
    case Flush(_, _, _) => ShelteredFlush(s, e);
    case Expire(_) => ShelteredExpire(s, e);
    case _ => ShelteredQuiet(s, e);
  }

  lemma ShelteredColdStep(s: System, e: Event)
    requires Structure(s) && Sheltered(s) && Enabled(s, e) && TidyStep(s, e) && (e.CompactL0? || e.CompactLevel?)
    ensures Sheltered(Step(s, e)) && Lossless(s, e)
  {
    hide Structure, ColdMove, Compacts, ColdOverlap, Resurrects, SameReads, Files, Bottom, TidyMove, Sheltered, ColdRest;
    var t := Step(s, e);
    ColdEventMoves(s, e);
    TidyMoves(s, e);
    if e.CompactL0? {
      var top, rest := AsSet(s.tree.l0[..e.count]), AsSet(s.tree.l0[e.count..]);
      ShelteredCold(s, t, 0, e.base, e.base, top, rest, e.job);
      if !ColdOverlap(s.tree, Inputs(s.tree, e.base, top), 0, e.base, e.base) {
        TidyIsHarmless(s, 0, e.base, e.base, top, rest);
      }
    } else {
      var top, rest := {e.table}, Level(s.tree, e.level) - {e.table};
      ShelteredCold(s, t, e.level, e.level + 1, e.base, top, rest, e.job);
      if !ColdOverlap(s.tree, Inputs(s.tree, e.level + 1, top), e.level, e.level + 1, e.base) {
        TidyIsHarmless(s, e.level, e.level + 1, e.base, top, rest);
      }
    }
  }

  lemma {:induction false} TidyIsSheltered(maxLevels: nat, events: seq<Event>)
    requires IsRun(maxLevels, events) && Tidy(maxLevels, events)
    ensures Sheltered(After(maxLevels, events)) && AllLossless(maxLevels, events)
    decreases |events|
  {
    if events == [] {
      EmptyTables(maxLevels);
    } else {
      var front, last := events[..|events| - 1], events[|events| - 1];
      TidyIsSheltered(maxLevels, front);
      RunsKeep(maxLevels, front);
      hide Structure, Sheltered, Enabled, Step, Lossless, TidyStep;
      ShelteredStep(After(maxLevels, front), last);
    }
  }

  // ---------- The order of the cold levels ----------

  /** Upper cold levels, and later tables of level 0, hold newer versions of a key. */
  ghost predicate ColdOrder(tree: Tree) {
    && ByAge(tree.l0)
    && forall n, m | 0 <= n < m <= |tree.levels| :: Newer(Files(Level(tree, n)), Files(Level(tree, m)))
  }

  lemma ColdOrderKept(a: Tree, b: Tree, n: nat, next: nat, top: set<Table>, rest: set<Table>, outcome: set<Table>, i: nat, m: nat)
    requires ColdMove(a, b, n, next, top, rest, outcome) && TidyMove(a, n, next, top, rest) && ColdOrder(a)
    requires Files(outcome) <= Files(Inputs(a, next, top))
    requires i < m <= |b.levels|
    ensures Newer(Files(Level(b, i)), Files(Level(b, m)))
  {
    var bottom := Bottom(Level(a, next), top);
    FilesUnion(Level(a, next) - bottom, outcome);
    FilesUnion(top, bottom);
    FilesUnion(top, rest);
    assert Files(bottom) <= Files(Level(a, next));
    assert Files(Level(a, next) - bottom) <= Files(Level(a, next));
    assert Files(Level(b, next)) <= Files(Level(a, next)) + Files(top);
    assert Newer(Files(Level(a, n)), Files(Level(a, next)));
    if i == next {
      assert Newer(Files(Level(a, next)), Files(Level(a, m)));
      assert Newer(Files(Level(a, n)), Files(Level(a, m)));
    } else if m == next {
      assert Newer(Files(Level(a, i)), Files(Level(a, next)));
      if i < n {
        assert Newer(Files(Level(a, i)), Files(Level(a, n)));
      }
    } else {
      assert Newer(Files(Level(a, i)), Files(Level(a, m)));
    }
  }

  /** Unless a lower level overlaps, every untouched cold version is newer than the inputs. */
  lemma UntouchedIsNewer(a: Tree, b: Tree, n: nat, next: nat, top: set<Table>, rest: set<Table>, outcome: set<Table>,
                         base: nat, d: Entry, r: Entry)
    requires WellFormed(a) && ColdOrder(a) && ColdMove(a, b, n, next, top, rest, outcome) && TidyMove(a, n, next, top, rest)
    requires !ColdOverlap(a, Inputs(a, next, top), n, next, base)
    requires d in Files(Inputs(a, next, top)) && r in Files(Untouched(a, n, next, top, rest))
    requires d.key.user == r.key.user
    ensures d.key.ts < r.key.ts
  {
    var x := InFiles(Untouched(a, n, next, top, rest), r);
    var y := InFiles(Inputs(a, next, top), d);
    assert y in top ==> d in Files(top) && d in Files(Level(a, n));
    assert y !in top ==> d in Files(Level(a, next));
    if x in rest {
      assert r in Files(rest) && r in Files(Level(a, n));
      assert Newer(Files(Level(a, n)), Files(Level(a, next)));
    } else if x in Level(a, next) && x !in Bottom(Level(a, next), top) {
      assert r in Files(Level(a, next) - Bottom(Level(a, next), top));
      RestSharesNoUser(Level(a, next), top, d, r);
      assert false;
    } else {
      var k :| 0 <= k <= |a.levels| && k != n && k != next && x in Level(a, k);
      assert r in Files(Level(a, k));
      if k < n {
        assert Newer(Files(Level(a, k)), Files(Level(a, n)));
        assert Newer(Files(Level(a, k)), Files(Level(a, next)));
      } else if k < next {
        assert Newer(Files(Level(a, k)), Files(Level(a, next)));
      } else {
        assert x.Valid();
        SharedUserTouches(x, r, Inputs(a, next, top), y, d);
        assert false;
      }
    }
  }

  lemma ColdOrderStep(s: System, e: Event)
    requires Structure(s) && ColdOrder(s.tree) && Enabled(s, e) && TidyStep(s, e) && !e.Evict?
    ensures ColdOrder(Step(s, e).tree)
  {
    match e
    case CompactL0(_, _, _) => ColdOrderCold(s, e);
    case CompactLevel(_, _, _, _) => ColdOrderCold(s, e);
    case CompactHot(_, _) => HotLevels(s, e);
    case Flush(_, _, _) => ColdOrderFlush(s, e);
    case Expire(_) => ColdOrderExpire(s, e);
    case _ => QuietFiles(s, e);
  }

  lemma ColdOrderExpire(s: System, e: Event)
    requires ColdOrder(s.tree) && Enabled(s, e) && e.Expire?
    ensures ColdOrder(Step(s, e).tree)
  {
    hide Files, AgedEntries, Level, ByAge, Enabled, Newer, Step;
    ExpireSteps(s, e);
    LevelAged(s.tree, e.keys);
    AgedByAge(s.tree.l0, e.keys);
    var t := Step(s, e);
    forall n, m | 0 <= n < m <= |t.tree.levels| ensures Newer(Files(Level(t.tree, n)), Files(Level(t.tree, m))) {
      AgedNewer(Files(Level(s.tree, n)), Files(Level(s.tree, m)), e.keys);
    }
  }

  lemma ColdOrderFlush(s: System, e: Event)
    requires Structure(s) && ColdOrder(s.tree) && Enabled(s, e) && e.Flush?
    ensures ColdOrder(Step(s, e).tree)
  {
    FlushFacts(s, e);
    FlushKeeps(s, e);
    InSomeLevel(s.tree);
    hide Files, Step, Enabled, WellFormed, MemoryOrder, HotOrder, ByAge, Faithful, ColdTables, HotTables, Level, Flushed, HotPart;
    var t := Step(s, e);
    forall n, k | 0 <= n < k <= |t.tree.levels| ensures Newer(Files(Level(t.tree, n)), Files(Level(t.tree, k))) {
      assert Newer(Files(Level(s.tree, n)), Files(Level(s.tree, k)));
    }
  }

  lemma ColdOrderCold(s: System, e: Event)
    requires Structure(s) && ColdOrder(s.tree) && Enabled(s, e) && TidyStep(s, e) && (e.CompactL0? || e.CompactLevel?)
    ensures ColdOrder(Step(s, e).tree)
  {
    hide ColdMove, Compacts, ColdOverlap, Resurrects, SameReads, Files, Bottom, TidyMove, Newer, WellFormed, MemoryOrder, HotOrder,
      Faithful, ByAge, Level;
    var t := Step(s, e);
    ColdEventMoves(s, e);
    TidyMoves(s, e);
    StepKeeps(s, e);
    var n, next := if e.CompactL0? then 0 else e.level, if e.CompactL0? then e.base else e.level + 1;
    var top := if e.CompactL0? then AsSet(s.tree.l0[..e.count]) else {e.table};
    var rest := if e.CompactL0? then AsSet(s.tree.l0[e.count..]) else Level(s.tree, e.level) - {e.table};
    ColdMoveExact(s, t, n, next, top, rest, e.base, e.job);
    forall i, m | 0 <= i < m <= |t.tree.levels| ensures Newer(Files(Level(t.tree, i)), Files(Level(t.tree, m))) {
      ColdOrderKept(s.tree, t.tree, n, next, top, rest, e.job.outcome, i, m);
    }
  }

  predicate NoEviction(events: seq<Event>) {
    forall e | e in events :: !e.Evict?
  }

  lemma {:induction false} TidyIsOrdered(maxLevels: nat, events: seq<Event>)
    requires IsRun(maxLevels, events) && Tidy(maxLevels, events) && NoEviction(events)
    ensures ColdOrder(After(maxLevels, events).tree)
    decreases |events|
  {
    if events == [] {
      EmptyTables(maxLevels);
    } else {
      var front, last := events[..|events| - 1], events[|events| - 1];
      assert NoEviction(front) by {
        assert forall e | e in front :: e in events;
      }
      TidyIsOrdered(maxLevels, front);
      RunsKeep(maxLevels, front);
      hide Structure, ColdOrder, Enabled, Step, TidyStep;
      assert last in events;
      ColdOrderStep(After(maxLevels, front), last);
    }
  }

  // ---------- Main results ----------

  /** After any run of writes, flushes and compactions of both tiers, whatever the base levels: a
      read of any key at any timestamp that may still be asked is answered from the tree exactly as
      from the full history of writes. With evictions and expiry it is if nothing is moved past its own
      keys and what expires does so apart, and in any other run as long as every compaction is lossless. */
  lemma ReadsAreExact(maxLevels: nat, events: seq<Event>, user: UserKey, ts: nat, answer: Option<Entry>)
    requires IsRun(maxLevels, events) && After(maxLevels, events).discardTs <= ts
    requires Calm(events) || Tidy(maxLevels, events) || AllLossless(maxLevels, events)
    ensures var s := After(maxLevels, events);
            Reads(All(s.tree), user, ts, answer) <==> Reads(s.written, user, ts, answer)
  {
    hide Calm, Tidy, AllLossless, Reads;
    if Calm(events) {
      CalmIsTwinned(maxLevels, events);
    } else if Tidy(maxLevels, events) {
      TidyIsSheltered(maxLevels, events);
    }
    ExactlyLossless(maxLevels, events);
  }

  /** In every run the orders that point lookup relies on hold. Upper cold levels hold newer versions
      in the runs without eviction that pass over no key. */
  lemma OrdersHold(maxLevels: nat, events: seq<Event>)
    requires IsRun(maxLevels, events)
    ensures var tree := After(maxLevels, events).tree;
            && WellFormed(tree) && MemoryOrder(tree) && ByAge(tree.l0) && HotOrder(tree)
            && (NoEviction(events) && Tidy(maxLevels, events) ==> ColdOrder(tree))
  {
    RunsKeep(maxLevels, events);
    if NoEviction(events) && Tidy(maxLevels, events) {
      TidyIsOrdered(maxLevels, events);
    }
  }
}
