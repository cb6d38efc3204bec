/** The point lookup of db.go and levels.go: memtables, then the hot tier, then levels 0 and up.
    It stops early at the exact version asked for and keeps the highest version otherwise. */
module Lookup {
  import opened Keys
  import opened Compaction
  import opened Snapshots
  import opened Lsm
  import opened LsmSafety
  import opened LsmReads
  import opened Levels
  import opened Wrappers

  ghost function Stored(h: LevelHandler): set<Entry>
    reads h
  {
    Files(AsSet(h.tables))
  }

  /** `doesNotHave` is a bloom filter test: it may only say so of keys the table does not have. */
  ghost predicate NoFalseNegatives(h: LevelHandler, doesNotHave: (Table, UserKey) -> bool)
    reads h
  {
    forall t, e | t in h.tables && e in t.entries :: !doesNotHave(t, e.key.user)
  }

  lemma FindsExact(a: set<Entry>, b: set<Entry>, user: UserKey, ts: nat, found: Option<Entry>)
    requires found.Some? && Finds(a, user, ts, found) && found.value.key.ts == ts && a <= b
    ensures Finds(b, user, ts, found)
  {
  }

  /** When L98 has a version the reader may see, nothing newer can be in L99. */
  lemma FindsAbove(upper: set<Entry>, lower: set<Entry>, user: UserKey, ts: nat, found: Option<Entry>)
    requires found.Some? && Finds(upper, user, ts, found) && Newer(upper, lower)
    ensures Finds(upper + lower, user, ts, found)
  {
  }

  class Controller {
    const hotTier: LevelHandler
    const hotTierOrd: LevelHandler
    const levels: seq<LevelHandler>

    constructor (hotTier: LevelHandler, hotTierOrd: LevelHandler, levels: seq<LevelHandler>)
      ensures this.hotTier == hotTier && this.hotTierOrd == hotTierOrd && this.levels == levels
    {
      this.hotTier, this.hotTierOrd, this.levels := hotTier, hotTierOrd, levels;
    }

    ghost function Handlers(): set<LevelHandler> {
      (set h | h in levels) + {hotTier, hotTierOrd}
    }

    ghost predicate Ready(doesNotHave: (Table, UserKey) -> bool)
      reads Handlers()
    {
      && (forall h | h in Handlers() :: h.Valid() && NoFalseNegatives(h, doesNotHave))
      && Newer(Stored(hotTier), Stored(hotTierOrd))
    }

    ghost function Below(n: nat): set<Entry>
      requires n <= |levels|
      reads levels
    {
      if n == 0 then {} else Below(n - 1) + Stored(levels[n - 1])
    }

    ghost function Contents(): set<Entry>
      reads Handlers()
    {
      Stored(hotTier) + Stored(hotTierOrd) + Below(|levels|)
    }

    lemma BelowGrows(n: nat)
      requires n <= |levels|
      ensures forall m | 0 <= m <= n :: Below(m) <= Below(n)
    {
      if n > 0 {
        BelowGrows(n - 1);
      }
    }

    method GetHotTier(user: UserKey, ts: nat, doesNotHave: (Table, UserKey) -> bool)
      returns (found: Option<Entry>)
      requires Ready(doesNotHave)
      ensures Finds(Stored(hotTier) + Stored(hotTierOrd), user, ts, found)
    {
      found := hotTier.Get(user, ts, doesNotHave);
      if found.Some? {
        FindsAbove(Stored(hotTier), Stored(hotTierOrd), user, ts, found);
        return;
      }
      found := hotTierOrd.Get(user, ts, doesNotHave);
    }

    /** `seen` is where `best` was found: the memtables. */
    method Get(user: UserKey, ts: nat, best: Option<Entry>, ghost seen: set<Entry>,
               doesNotHave: (Table, UserKey) -> bool)
      returns (maxVs: Option<Entry>)
      requires Ready(doesNotHave) && Finds(seen, user, ts, best) && Stamped(seen)
      ensures Finds(seen + Contents(), user, ts, maxVs)
    {
      hide Finds, Newer, Files;
      maxVs := best;
      var hot := GetHotTier(user, ts, doesNotHave);
      ghost var tier := Stored(hotTier) + Stored(hotTierOrd);
      assert hotTier in Handlers() && hotTierOrd in Handlers();
      FindsUnion(seen, tier, user, ts, best, hot);
      if hot.Some? {
        if hot.value.key.ts == ts {
          FindsExact(tier, seen + Contents(), user, ts, hot);
          return hot;
        }
        if Version(maxVs) < hot.value.key.ts {
          maxVs := hot;
        }
      }
      ghost var done := seen + tier;
      for i := 0 to |levels|
        invariant done == seen + tier + Below(i) && Stamped(done)
        invariant Finds(done, user, ts, maxVs)
      {
        assert levels[i] in Handlers();
        var found := levels[i].Get(user, ts, doesNotHave);
        FindsUnion(done, Stored(levels[i]), user, ts, maxVs, found);
        done := done + Stored(levels[i]);
        if found.Some? {
          if found.value.key.ts == ts {
            BelowGrows(|levels|);
            assert Below(i + 1) <= Below(|levels|);
            FindsExact(Stored(levels[i]), seen + Contents(), user, ts, found);
            return found;
          }
          if Version(maxVs) < found.value.key.ts {
            maxVs := found;
          }
        }
      }
      assert done == seen + Contents();
    }
  }

  /** The union of the skiplists from `from` on. */
  ghost function InMemory(mem: seq<seq<Entry>>, from: nat): set<Entry>
    requires from <= |mem|
    decreases |mem| - from
  {
    if from == |mem| then {} else Set(mem[from]) + InMemory(mem, from + 1)
  }

  lemma InMemoryHas(mem: seq<seq<Entry>>, from: nat)
    requires from <= |mem|
    ensures forall e :: e in InMemory(mem, from) <==> exists i :: from <= i < |mem| && e in mem[i]
    decreases |mem| - from
  {
    if from < |mem| {
      InMemoryHas(mem, from + 1);
    }
  }

  class DB {
    var mem: seq<seq<Entry>>
    const lc: Controller

    constructor (lc: Controller)
      ensures this.lc == lc && mem == []
    {
      this.lc, mem := lc, [];
    }

    ghost predicate Ready(doesNotHave: (Table, UserKey) -> bool)
      reads this, lc.Handlers()
    {
      && lc.Ready(doesNotHave)
      && (forall i | 0 <= i < |mem| :: Sorted(mem[i]))
      && Stamped(InMemory(mem, 0))
    }

    ghost function Contents(): set<Entry>
      reads this, lc.Handlers()
    {
      InMemory(mem, 0) + lc.Contents()
    }

    /** db.get: the newest version at or below `ts` of everything stored. */
    method Get(user: UserKey, ts: nat, doesNotHave: (Table, UserKey) -> bool) returns (found: Option<Entry>)
      requires Ready(doesNotHave)
      ensures Finds(Contents(), user, ts, found)
    {
      var maxVs: Option<Entry> := None;
      ghost var done: set<Entry> := {};
      for i := 0 to |mem|
        invariant InMemory(mem, 0) == done + InMemory(mem, i)
        invariant Finds(done, user, ts, maxVs)
      {
        var vs := Seek(mem[i], InternalKey(user, ts));
        SeekFinds(mem[i], user, ts, vs);
        FindsUnion(done, Set(mem[i]), user, ts, maxVs, SameUser(vs, user));
        done := done + Set(mem[i]);
        if vs.Some? && vs.value.key.user == user {
          if vs.value.key.ts == ts {
            FindsExact(Set(mem[i]), Contents(), user, ts, vs);
            return vs;
          }
          if Version(maxVs) < vs.value.key.ts {
            maxVs := vs;
          }
        }
      }
      found := lc.Get(user, ts, maxVs, InMemory(mem, 0), doesNotHave);
    }
  }

  // ---------- Lookup in a running tree ----------

  /** The lists the database holds are the tables of `tree`, each ordered level in key order. */
  ghost predicate Lays(db: DB, tree: Tree)
    reads db, db.lc.Handlers()
  {
    && |db.mem| == |tree.mem|
    && (forall i | 0 <= i < |db.mem| :: Sorted(db.mem[i]) && Set(db.mem[i]) == tree.mem[i])
    && db.lc.hotTier.level == 98 && db.lc.hotTier.tables == tree.hot
    && AsSet(db.lc.hotTierOrd.tables) == tree.hotOrd && LevelSorted(db.lc.hotTierOrd.tables)
    && |db.lc.levels| == |tree.levels| + 1
    && forall n | 0 <= n <= |tree.levels| ::
         var h := db.lc.levels[n];
         h.level == n && AsSet(h.tables) == Level(tree, n) && (n > 0 ==> LevelSorted(h.tables))
  }

  lemma StampedLasts(es: set<Entry>, keys: set<InternalKey>)
    requires Stamped(es)
    ensures Stamped(AgedEntries(es, keys))
  {
  }

  lemma {:induction false} RunStamped(maxLevels: nat, events: seq<Event>)
    requires IsRun(maxLevels, events)
    ensures Stamped(After(maxLevels, events).written)
    decreases |events|
  {
    if events != [] {
      var front, last := events[..|events| - 1], events[|events| - 1];
      RunStamped(maxLevels, front);
      var s := After(maxLevels, front);
      if last.Expire? {
        StampedLasts(s.written, last.keys);
      } else {
        assert Step(s, last).written == s.written || last.Put?;
      }
    }
  }

  lemma LaysContents(db: DB, tree: Tree)
    requires Lays(db, tree)
    ensures InMemory(db.mem, 0) == Memory(tree)
    ensures db.Contents() == All(tree)
  {
    InMemoryHas(db.mem, 0);
    assert InMemory(db.mem, 0) == Memory(tree) by {
      forall e | e in Memory(tree) ensures e in InMemory(db.mem, 0) {
        var i :| 0 <= i < |tree.mem| && e in tree.mem[i];
        assert e in Set(db.mem[i]);
      }
      forall e | e in InMemory(db.mem, 0) ensures e in Memory(tree) {
        var i :| 0 <= i < |db.mem| && e in db.mem[i];
        assert e in Set(db.mem[i]);
      }
    }
    BelowIsCold(db, tree, |db.lc.levels|);
    assert db.lc.Below(|db.lc.levels|) == Files(ColdTables(tree));
    assert Stored(db.lc.hotTier) + Stored(db.lc.hotTierOrd) == Files(HotTables(tree));
  }

  lemma {:induction false} BelowIsCold(db: DB, tree: Tree, n: nat)
    requires Lays(db, tree) && n <= |db.lc.levels|
    ensures forall e :: e in db.lc.Below(n) <==> exists m, t :: 0 <= m < n && t in Level(tree, m) && e in t.entries
  {
    if n > 0 {
      BelowIsCold(db, tree, n - 1);
      var here := Stored(db.lc.levels[n - 1]);
      forall e | e in here
        ensures exists m, t :: 0 <= m < n && t in Level(tree, m) && e in t.entries
      {
        var t :| t in AsSet(db.lc.levels[n - 1].tables) && e in t.entries;
        assert t in Level(tree, n - 1);
      }
    }
  }

  /** In every reachable tree the conditions of the point lookup hold. */
  lemma ReachableReady(db: DB, maxLevels: nat, events: seq<Event>, doesNotHave: (Table, UserKey) -> bool)
    requires IsRun(maxLevels, events) && Lays(db, After(maxLevels, events).tree)
    requires forall h | h in db.lc.Handlers() :: NoFalseNegatives(h, doesNotHave)
    ensures db.Ready(doesNotHave)
  {
    var s := After(maxLevels, events);
    RunsKeep(maxLevels, events);
    RunStamped(maxLevels, events);
    LaysContents(db, s.tree);
    forall h | h in db.lc.Handlers() ensures h.Valid() {
      HandlerValid(db, s.tree, h);
    }
  }

  lemma HandlerValid(db: DB, tree: Tree, h: LevelHandler)
    requires Lays(db, tree) && WellFormed(tree) && Stamped(All(tree)) && h in db.lc.Handlers()
    ensures h.Valid()
  {
    forall e | e in Stored(h) ensures e.key.ts >= 1 {
      LaysContents(db, tree);
      assert e in All(tree) by {
        if h in db.lc.levels {
          db.lc.BelowGrows(|db.lc.levels|);
          var n :| 0 <= n < |db.lc.levels| && db.lc.levels[n] == h;
          assert db.lc.Below(n + 1) <= db.lc.Below(|db.lc.levels|);
        }
      }
    }
    forall i | 0 <= i < |h.tables| ensures h.tables[i].Valid() {
      assert h.tables[i] in AsSet(h.tables);
    }
  }

  /** A read through every tier, at any timestamp a transaction may still use, is answered exactly
      from the full history of writes: in every run without eviction and expiry, and in every other
      one whose compactions were lossless. */
  method ReadInRun(db: DB, ghost maxLevels: nat, ghost events: seq<Event>,
                   user: UserKey, ts: nat, doesNotHave: (Table, UserKey) -> bool)
    returns (answer: Option<Entry>)
    requires IsRun(maxLevels, events) && After(maxLevels, events).discardTs <= ts
    requires Calm(events) || Tidy(maxLevels, events) || AllLossless(maxLevels, events)
    requires Lays(db, After(maxLevels, events).tree)
    requires forall h | h in db.lc.Handlers() :: NoFalseNegatives(h, doesNotHave)
    ensures Reads(After(maxLevels, events).written, user, ts, answer)
  {
    ReachableReady(db, maxLevels, events, doesNotHave);
    LaysContents(db, After(maxLevels, events).tree);
    answer := db.Get(user, ts, doesNotHave);
    if answer.Some? && answer.value.dead {
      answer := None;
    }
    ReadsAreExact(maxLevels, events, user, ts, answer);
  }
}
