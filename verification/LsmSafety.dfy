/** What any run of `Lsm` keeps, and exactly when a step changes the answer of a read that may still
    be asked: in every run the reads are those of the full history of writes as long as, and no
    longer than, no compaction drops a dead version above one that stays. */
module LsmSafety {
  import opened Keys
  import opened Compaction
  import opened Snapshots
  import opened Lsm
  import opened Wrappers

  // ---------- Orders ----------

  ghost predicate Newer(x: set<Entry>, y: set<Entry>) {
    forall a, b | a in x && b in y && a.key.user == b.key.user :: b.key.ts < a.key.ts
  }

  ghost predicate WellFormed(tree: Tree) {
    && (forall t | t in tree.l0 :: t.Valid())
    && (forall t | t in tree.hot :: t.Valid())
    && (forall n | 1 <= n <= |tree.levels| :: Separate(Level(tree, n)))
    && Separate(tree.hotOrd)
  }

  ghost predicate MemoryOrder(tree: Tree) {
    && (forall i, j | 0 <= i < j < |tree.mem| :: Newer(tree.mem[i], tree.mem[j]))
    && Newer(Memory(tree), Files(ColdTables(tree))) && Newer(Memory(tree), Files(HotTables(tree)))
  }

  /** Tables of level 0 and of L98, oldest first. */
  ghost predicate ByAge(tables: seq<Table>) {
    forall i, j | 0 <= i < j < |tables| :: Newer(Set(tables[j].entries), Set(tables[i].entries))
  }

  /** Every L98 version of a key is newer than every L99 version. */
  ghost predicate HotOrder(tree: Tree) {
    ByAge(tree.hot) && Newer(Files(AsSet(tree.hot)), Files(tree.hotOrd))
  }

  ghost predicate Faithful(s: System) {
    && All(s.tree) <= s.written
    && forall a, b | a in s.written && b in s.written && a.key == b.key :: a == b
  }

  /** What every run keeps, whatever it does. */
  ghost predicate Structure(s: System) {
    WellFormed(s.tree) && MemoryOrder(s.tree) && ByAge(s.tree.l0) && HotOrder(s.tree) && Faithful(s)
  }

  ghost predicate SameReads(a: set<Entry>, b: set<Entry>, from: nat) {
    forall user: UserKey, ts: nat, answer: Option<Entry> | from <= ts ::
      Reads(a, user, ts, answer) <==> Reads(b, user, ts, answer)
  }

  lemma SameReadsTrans(a: set<Entry>, b: set<Entry>, c: set<Entry>, from: nat)
    requires SameReads(a, b, from)
    ensures SameReads(a, c, from) <==> SameReads(b, c, from)
  {
    if SameReads(b, c, from) {
      forall user: UserKey, ts: nat, answer: Option<Entry> | from <= ts
        ensures Reads(a, user, ts, answer) <==> Reads(c, user, ts, answer)
      {
      }
    }
    if SameReads(a, c, from) {
      forall user: UserKey, ts: nat, answer: Option<Entry> | from <= ts
        ensures Reads(b, user, ts, answer) <==> Reads(c, user, ts, answer)
      {
      }
    }
  }

  // ---------- One compaction, on sets ----------

  /** A key whose newest readable version among the inputs is dead, while the newest of those that
      stay elsewhere is alive and older. Merge entries are never dropped. */
  ghost predicate Resurrects(inputs: set<Entry>, rest: set<Entry>, discardTs: nat) {
    exists d: Entry, r: Entry ::
      && Newest(inputs, d.key.user, discardTs, d) && d.dead && !d.merge
      && Newest(rest, d.key.user, discardTs, r) && !r.dead && r.key.ts < d.key.ts
  }

  ghost predicate Functional(s: set<Entry>) {
    forall a, b | a in s && b in s && a.key == b.key :: a == b
  }

  lemma UniqueNewest(s: set<Entry>, user: UserKey, ts: nat, e: Entry, answer: Option<Entry>)
    requires Functional(s) && Newest(s, user, ts, e)
    ensures Reads(s, user, ts, answer) <==> answer == if e.dead then None else Some(e)
  {
    assert forall f | Newest(s, user, ts, f) :: f.key == e.key;
  }

  lemma AbsentReads(s: set<Entry>, user: UserKey, ts: nat, answer: Option<Entry>)
    requires Absent(s, user, ts)
    ensures Reads(s, user, ts, answer) <==> answer == None
  {
  }

  lemma NewestAfter(p: Params, merged: seq<Entry>, rest: set<Entry>, user: UserKey, ts: nat, e: Entry)
    requires Sorted(merged) && p.discardTs <= ts && (forall k: UserKey :: NothingDropped(p, k))
    requires Functional(Set(merged) + rest) && Newest(Set(merged) + rest, user, ts, e)
    requires p.hasOverlap || !Resurrects(Set(merged), rest, p.discardTs)
    ensures var now := Contents(Filter(p, merged)) + rest;
            Newest(now, user, ts, e) ||
            (e.dead && (Absent(now, user, ts) || exists r :: Newest(now, user, ts, r) && r.dead))
  {
    var out := Contents(Filter(p, merged));
    var now := out + rest;
    FilterIsSublist(p, START, merged, None);
    assert out <= Set(merged);
    if e !in now {
      assert Newest(Set(merged), user, ts, e);
      NewestSurvives(p, merged, user, ts, e);
      assert Newest(Set(merged), user, p.discardTs, e);
      if !Absent(now, user, ts) {
        NewestExists(now, user, ts);
        var r :| Newest(now, user, ts, r);
        assert r in rest && r.key.ts < e.key.ts;
        assert Newest(rest, user, p.discardTs, r);
      }
    }
  }

  lemma ReadsKept(p: Params, merged: seq<Entry>, rest: set<Entry>)
    requires Sorted(merged) && (forall k: UserKey :: NothingDropped(p, k))
    requires Functional(Set(merged) + rest)
    requires p.hasOverlap || !Resurrects(Set(merged), rest, p.discardTs)
    ensures SameReads(Set(merged) + rest, Contents(Filter(p, merged)) + rest, p.discardTs)
  {
    var before, now := Set(merged) + rest, Contents(Filter(p, merged)) + rest;
    FilterIsSublist(p, START, merged, None);
    assert now <= before;
    forall user: UserKey, ts: nat, answer: Option<Entry> | p.discardTs <= ts
      ensures Reads(before, user, ts, answer) <==> Reads(now, user, ts, answer)
    {
      if Absent(before, user, ts) {
        assert Absent(now, user, ts);
        AbsentReads(before, user, ts, answer);
        AbsentReads(now, user, ts, answer);
      } else {
        NewestExists(before, user, ts);
        var e :| Newest(before, user, ts, e);
        NewestAfter(p, merged, rest, user, ts, e);
        UniqueNewest(before, user, ts, e, answer);
        if Newest(now, user, ts, e) {
          UniqueNewest(now, user, ts, e, answer);
        } else if Absent(now, user, ts) {
          AbsentReads(now, user, ts, answer);
        } else {
          var r :| Newest(now, user, ts, r) && r.dead;
          UniqueNewest(now, user, ts, r, answer);
        }
      }
    }
  }

  lemma ReadsLost(p: Params, merged: seq<Entry>, rest: set<Entry>)
    requires Sorted(merged) && (forall k: InternalKey :: !p.dropped(k)) && !p.hasOverlap
    requires Functional(Set(merged) + rest) && Resurrects(Set(merged), rest, p.discardTs)
    ensures !SameReads(Set(merged) + rest, Contents(Filter(p, merged)) + rest, p.discardTs)
  {
    var inputs, out := Set(merged), Contents(Filter(p, merged));
    var d: Entry, r: Entry :|
      && Newest(inputs, d.key.user, p.discardTs, d) && d.dead && !d.merge
      && Newest(rest, d.key.user, p.discardTs, r) && !r.dead && r.key.ts < d.key.ts;
    DeadGoes(p, START, merged, d);
    assert Newest(out + rest, d.key.user, p.discardTs, r);
    assert Reads(out + rest, d.key.user, p.discardTs, Some(r));
    assert d in inputs + rest;
    assert !Newest(inputs + rest, d.key.user, p.discardTs, r);
    assert !Reads(inputs + rest, d.key.user, p.discardTs, Some(r));
  }

  /** What a compaction does to reads: it changes an answer at or above the discard timestamp
      exactly when nothing is found to overlap and some key would come back from the dead. */
  lemma CompactionIsExact(p: Params, merged: seq<Entry>, rest: set<Entry>)
    requires Sorted(merged) && (forall k: InternalKey :: !p.dropped(k))
    requires Functional(Set(merged) + rest)
    ensures SameReads(Set(merged) + rest, Contents(Filter(p, merged)) + rest, p.discardTs) <==>
            p.hasOverlap || !Resurrects(Set(merged), rest, p.discardTs)
  {
    assert forall k: UserKey :: NothingDropped(p, k);
    if p.hasOverlap || !Resurrects(Set(merged), rest, p.discardTs) {
      ReadsKept(p, merged, rest);
    } else {
      ReadsLost(p, merged, rest);
    }
  }

  // ---------- Tables and ranges ----------

  lemma InRange(t: Table, e: Entry)
    requires t.Valid() && e in t.entries
    ensures t.Lo() <= e.key.user <= t.Hi()
  {
    var i :| 0 <= i < |t.entries| && t.entries[i] == e;
    if 0 < i {
      assert Before(t.entries[0].key, t.entries[i].key);
    }
    if i < |t.entries| - 1 {
      assert Before(t.entries[i].key, t.entries[|t.entries| - 1].key);
    }
  }

  lemma SharedUserTouches(t: Table, e: Entry, tables: set<Table>, x: Table, f: Entry)
    requires t.Valid() && e in t.entries && x in tables && x.Valid() && f in x.entries
    requires e.key.user == f.key.user
    ensures TouchesRange(t, tables)
  {
    InRange(t, e);
    InRange(x, f);
  }

  lemma SeparateUsers(tables: set<Table>, a: Table, b: Table, e: Entry, f: Entry)
    requires Separate(tables) && a in tables && b in tables && e in a.entries && f in b.entries
    requires e.key.user == f.key.user
    ensures a == b
  {
    InRange(a, e);
    InRange(b, f);
  }

  lemma InFiles(tables: set<Table>, e: Entry) returns (t: Table)
    requires e in Files(tables)
    ensures t in tables && e in t.entries
  {
    t :| t in tables && e in t.entries;
  }

  ghost predicate AllValid(tables: set<Table>) {
    forall t | t in tables :: t.Valid()
  }

  lemma LowToHigh(t: Table)
    requires t.Valid()
    ensures t.Lo() <= t.Hi()
  {
    InRange(t, t.entries[0]);
  }

  /** A table of the target that is not rewritten shares no user key with the rewritten ones and
      lies entirely to one side of them. */
  lemma OutsideBottom(next: set<Table>, top: set<Table>, x: Table)
    requires Separate(next) && AllValid(top) && x in next && x !in Bottom(next, top)
    ensures (forall e | e in Files(top + Bottom(next, top)) :: x.Hi() < e.key.user) ||
            (forall e | e in Files(top + Bottom(next, top)) :: e.key.user < x.Lo())
  {
    hide Files, Sorted;
    LowToHigh(x);
    var bottom := Bottom(next, top);
    if forall a | a in top :: x.Hi() < a.Lo() {
      forall e | e in Files(top + bottom) ensures x.Hi() < e.key.user {
        var t := InFiles(top + bottom, e);
        InRange(t, e);
        if t in bottom {
          var a :| a in top && a.entries != [] && a.Lo() <= t.Hi();
        }
      }
    } else {
      var low :| low in top && low.Lo() <= x.Hi();
      assert forall b | b in top :: b.Hi() < x.Lo();
      forall e | e in Files(top + bottom) ensures e.key.user < x.Lo() {
        var t := InFiles(top + bottom, e);
        InRange(t, e);
        if t in bottom {
          var b :| b in top && b.entries != [] && t.Lo() <= b.Hi();
        }
      }
    }
  }

  /** Rewriting a stretch of a level keeps its tables apart. */
  lemma RewriteKeepsSeparate(next: set<Table>, top: set<Table>, outcome: set<Table>)
    requires Separate(next) && AllValid(top) && Separate(outcome)
    requires Files(outcome) <= Files(top + Bottom(next, top))
    ensures Separate(next - Bottom(next, top) + outcome)
  {
    forall a, b | a in next - Bottom(next, top) && b in outcome ensures a.Hi() < b.Lo() || b.Hi() < a.Lo() {
      OutsideBottom(next, top, a);
      assert b.entries[0] in b.entries && b.entries[|b.entries| - 1] in b.entries;
      assert b.entries[0] in Files(outcome) && b.entries[|b.entries| - 1] in Files(outcome);
    }
  }

  lemma RestSharesNoUser(next: set<Table>, top: set<Table>, e: Entry, f: Entry)
    requires Separate(next) && AllValid(top)
    requires e in Files(top + Bottom(next, top)) && f in Files(next - Bottom(next, top))
    ensures e.key.user != f.key.user
  {
    var x := InFiles(next - Bottom(next, top), f);
    OutsideBottom(next, top, x);
    InRange(x, f);
  }

  lemma OutcomeIsSubset(s: System, inputs: set<Table>, overlap: bool, job: Job) returns (p: Params)
    requires Compacts(s, inputs, overlap, job)
    ensures p.discardTs == s.discardTs && p.hasOverlap == overlap && forall k: UserKey :: NothingDropped(p, k)
    ensures forall k: InternalKey :: !p.dropped(k)
    ensures Files(job.outcome) == Contents(Filter(p, job.merged)) && Files(job.outcome) <= Files(inputs)
  {
    var keep: nat :| Files(job.outcome) == Contents(Filter(Keep(s.discardTs, keep, overlap), job.merged));
    p := Keep(s.discardTs, keep, overlap);
    FilterIsSublist(p, START, job.merged, None);
    forall e | e in Files(job.outcome) ensures e in Files(inputs) {
      assert e in Set(job.merged);
    }
  }

  lemma FilesUnion(x: set<Table>, y: set<Table>)
    ensures Files(x + y) == Files(x) + Files(y)
  {
    forall e ensures e in Files(x + y) <==> e in Files(x) + Files(y) {
      if e in Files(x + y) {
        var t := InFiles(x + y, e);
      }
    }
  }

  // ---------- Cold compactions ----------

  /** Tables `top` of level n move into level `next`; `rest` stays on level n. */
  ghost predicate ColdMove(a: Tree, b: Tree, n: nat, next: nat, top: set<Table>, rest: set<Table>, outcome: set<Table>) {
    && n < next <= |a.levels| == |b.levels|
    && b.mem == a.mem && b.hot == a.hot && b.hotOrd == a.hotOrd
    && Level(a, n) == top + rest && Level(b, n) == rest
    && Level(b, next) == Level(a, next) - Bottom(Level(a, next), top) + outcome
    && (forall k | 0 <= k <= |a.levels| && k != n && k != next :: Level(b, k) == Level(a, k))
    && Newer(Files(rest), Files(top))
    && AllValid(top) && AllValid(rest) && top != {}
  }

  ghost function Inputs(a: Tree, next: nat, top: set<Table>): set<Table>
    requires next <= |a.levels|
  {
    top + Bottom(Level(a, next), top)
  }

  /** What a cold compaction leaves alone. */
  ghost function Untouched(a: Tree, n: nat, next: nat, top: set<Table>, rest: set<Table>): set<Table>
    requires n < next <= |a.levels|
  {
    rest + (Level(a, next) - Bottom(Level(a, next), top))
      + set k, t | 0 <= k <= |a.levels| && k != n && k != next && t in Level(a, k) :: t
  }

  lemma MovedTables(a: Tree, b: Tree, n: nat, next: nat, top: set<Table>, rest: set<Table>, outcome: set<Table>)
    requires ColdMove(a, b, n, next, top, rest, outcome)
    ensures ColdTables(a) == Inputs(a, next, top) + Untouched(a, n, next, top, rest)
    ensures ColdTables(b) == outcome + Untouched(a, n, next, top, rest)
  {
    var bottom := Bottom(Level(a, next), top);
    forall t ensures t in ColdTables(a) <==> t in Inputs(a, next, top) + Untouched(a, n, next, top, rest) {
      if t in ColdTables(a) {
        var k :| 0 <= k <= |a.levels| && t in Level(a, k);
      }
    }
    forall t ensures t in ColdTables(b) <==> t in outcome + Untouched(a, n, next, top, rest) {
      if t in ColdTables(b) {
        var k :| 0 <= k <= |b.levels| && t in Level(b, k);
      }
      if t in outcome {
        assert t in Level(b, next);
      }
    }
  }

  /** What stays where it is while `top` moves to a cold level. */
  ghost function ColdRest(a: Tree, n: nat, next: nat, top: set<Table>, rest: set<Table>): set<Entry>
    requires n < next <= |a.levels|
  {
    Memory(a) + Files(Untouched(a, n, next, top, rest)) + Files(HotTables(a))
  }

  lemma ColdMoveExact(s: System, t: System, n: nat, next: nat, top: set<Table>, rest: set<Table>, base: nat, job: Job)
    requires Structure(s) && ColdMove(s.tree, t.tree, n, next, top, rest, job.outcome)
    requires t.written == s.written && t.discardTs == s.discardTs
    requires var inputs := Inputs(s.tree, next, top); Compacts(s, inputs, ColdOverlap(s.tree, inputs, n, next, base), job)
    ensures Files(ColdTables(t.tree)) <= Files(ColdTables(s.tree)) && Files(job.outcome) <= Files(Inputs(s.tree, next, top))
    ensures All(t.tree) <= All(s.tree)
    ensures var inputs := Inputs(s.tree, next, top);
            SameReads(All(s.tree), All(t.tree), s.discardTs) <==>
            ColdOverlap(s.tree, inputs, n, next, base) ||
            !Resurrects(Files(inputs), ColdRest(s.tree, n, next, top, rest), s.discardTs)
  {
    hide WellFormed, MemoryOrder, ByAge, HotOrder, SameReads, Resurrects;
    var a, b := s.tree, t.tree;
    var inputs, kept := Inputs(a, next, top), Untouched(a, n, next, top, rest);
    var p := OutcomeIsSubset(s, inputs, ColdOverlap(a, inputs, n, next, base), job);
    MovedTables(a, b, n, next, top, rest, job.outcome);
    FilesUnion(inputs, kept);
    FilesUnion(job.outcome, kept);
    var others := ColdRest(a, n, next, top, rest);
    assert All(a) == Files(inputs) + others && All(b) == Files(job.outcome) + others;
    assert Functional(Files(inputs) + others);
    CompactionIsExact(p, job.merged, others);
  }

  lemma MoveWellFormed(a: Tree, b: Tree, n: nat, next: nat, top: set<Table>, rest: set<Table>, outcome: set<Table>)
    requires WellFormed(a) && ColdMove(a, b, n, next, top, rest, outcome)
    requires Separate(outcome) && Files(outcome) <= Files(Inputs(a, next, top))
    ensures WellFormed(b)
  {
    RewriteKeepsSeparate(Level(a, next), top, outcome);
    forall k | 1 <= k <= |b.levels| ensures Separate(Level(b, k)) {
      if k == n {
        assert Level(b, n) <= Level(a, n);
      }
    }
    forall t | t in b.l0 ensures t.Valid() {
      assert t in Level(b, 0);
      if n > 0 {
        assert t in Level(a, 0);
      }
    }
  }

  lemma ColdMoveKeeps(s: System, t: System, n: nat, next: nat, top: set<Table>, rest: set<Table>, base: nat, job: Job)
    requires Structure(s) && ColdMove(s.tree, t.tree, n, next, top, rest, job.outcome) && ByAge(t.tree.l0)
    requires t.written == s.written && t.discardTs == s.discardTs
    requires var inputs := Inputs(s.tree, next, top); Compacts(s, inputs, ColdOverlap(s.tree, inputs, n, next, base), job)
    ensures Structure(t)
  {
    hide ColdOverlap, ByAge, Resurrects, SameReads, MemoryOrder, Newer, Filter, ColdTables, WellFormed, Faithful, Files;
    ColdMoveExact(s, t, n, next, top, rest, base, job);
    MoveWellFormed(s.tree, t.tree, n, next, top, rest, job.outcome);
    assert Memory(t.tree) == Memory(s.tree) && HotTables(t.tree) == HotTables(s.tree);
    FewerFiles(s, t);
  }

  /** Dropping files disturbs neither the memory order nor the ties to the history. */
  lemma FewerFiles(s: System, t: System)
    requires MemoryOrder(s.tree) && Faithful(s) && t.tree.mem == s.tree.mem && t.written == s.written
    requires All(t.tree) <= All(s.tree)
    requires Files(ColdTables(t.tree)) + Files(HotTables(t.tree)) <= Files(ColdTables(s.tree)) + Files(HotTables(s.tree))
    ensures MemoryOrder(t.tree) && Faithful(t)
  {
    assert Memory(t.tree) == Memory(s.tree);
  }

  /** A prefix of an age-ordered list is older than the rest, which stays age-ordered. */
  lemma OldestFirst(tables: seq<Table>, count: nat)
    requires count <= |tables|
    requires ByAge(tables)
    ensures Newer(Files(AsSet(tables[count..])), Files(AsSet(tables[..count])))
    ensures AsSet(tables) == AsSet(tables[..count]) + AsSet(tables[count..])
    ensures ByAge(tables[count..])
  {
    hide Files;
    var top, rest := AsSet(tables[..count]), AsSet(tables[count..]);
    assert tables == tables[..count] + tables[count..];
    forall x, y | x in Files(rest) && y in Files(top) && x.key.user == y.key.user ensures y.key.ts < x.key.ts {
      var tx := InFiles(rest, x);
      var ty := InFiles(top, y);
      var j :| count <= j < |tables| && tables[j] == tx;
      var i :| 0 <= i < count && tables[i] == ty;
      assert Newer(Set(tables[j].entries), Set(tables[i].entries));
    }
  }

  lemma L0Moves(a: Tree, b: Tree, count: nat, base: nat, outcome: set<Table>)
    requires 1 <= count <= |a.l0| && 1 <= base <= |a.levels| && WellFormed(a) && ByAge(a.l0)
    requires var bottom := Bottom(Level(a, base), AsSet(a.l0[..count]));
             b == SetLevel(a, base, Level(a, base) - bottom + outcome).(l0 := a.l0[count..])
    ensures ColdMove(a, b, 0, base, AsSet(a.l0[..count]), AsSet(a.l0[count..]), outcome)
  {
    OldestFirst(a.l0, count);
    assert a.l0[..count][0] in AsSet(a.l0[..count]);
  }

  lemma LevelMoves(a: Tree, b: Tree, n: nat, table: Table, outcome: set<Table>)
    requires 1 <= n < |a.levels| && table in Level(a, n) && WellFormed(a)
    requires var bottom := Bottom(Level(a, n + 1), {table});
             b == SetLevel(SetLevel(a, n + 1, Level(a, n + 1) - bottom + outcome), n, Level(a, n) - {table})
    ensures ColdMove(a, b, n, n + 1, {table}, Level(a, n) - {table}, outcome)
  {
    var rest := Level(a, n) - {table};
    forall x, y | x in Files(rest) && y in Files({table}) ensures x.key.user != y.key.user {
      var tx := InFiles(rest, x);
      var ty := InFiles({table}, y);
      if x.key.user == y.key.user {
        SeparateUsers(Level(a, n), tx, ty, x, y);
        assert false;
      }
    }
  }

  // ---------- Hot compactions ----------

  ghost function HotRest(a: Tree, top: set<Table>, rest: set<Table>): set<Table> {
    rest + (a.hotOrd - Bottom(a.hotOrd, top))
  }

  ghost function HotInputs(a: Tree, top: set<Table>): set<Table> {
    top + Bottom(a.hotOrd, top)
  }

  ghost predicate HotSplit(a: Tree, top: set<Table>, rest: set<Table>) {
    AsSet(a.hot) == top + rest && Newer(Files(rest), Files(top)) && AllValid(top) && AllValid(rest)
  }

  /** Unless the cold tree overlaps, everything that stays is newer than the inputs. */
  lemma HotRestIsNewer(a: Tree, top: set<Table>, rest: set<Table>, d: Entry, r: Entry)
    requires WellFormed(a) && HotOrder(a) && HotSplit(a, top, rest)
    requires d in Files(HotInputs(a, top)) && r in Files(HotRest(a, top, rest)) && d.key.user == r.key.user
    ensures d.key.ts < r.key.ts
  {
    var x := InFiles(HotRest(a, top, rest), r);
    var y := InFiles(HotInputs(a, top), d);
    if x in rest {
      assert r in Files(rest) && r in Files(AsSet(a.hot));
      if y in top {
        assert d in Files(top);
      } else {
        assert d in Files(a.hotOrd);
      }
    } else {
      assert r in Files(a.hotOrd - Bottom(a.hotOrd, top));
      RestSharesNoUser(a.hotOrd, top, d, r);
      assert false;
    }
  }

  lemma NoColdVersion(a: Tree, top: set<Table>, rest: set<Table>, d: Entry, r: Entry)
    requires WellFormed(a) && HotSplit(a, top, rest)
    requires d in Files(HotInputs(a, top)) && r in Files(ColdTables(a)) && d.key.user == r.key.user
    ensures HotOverlap(a, HotInputs(a, top))
  {
    var x := InFiles(ColdTables(a), r);
    var y := InFiles(HotInputs(a, top), d);
    ColdIsValid(a, x);
    SharedUserTouches(x, r, HotInputs(a, top), y, d);
  }

  lemma ColdIsValid(a: Tree, x: Table)
    requires WellFormed(a) && x in ColdTables(a)
    ensures x.Valid()
  {
    var n :| 0 <= n <= |a.levels| && x in Level(a, n);
  }

  /** A compaction of the hot tier brings nothing back: unless the cold tree overlaps, all that
      stays of its keys is newer. */
  lemma HotHarmless(a: Tree, top: set<Table>, rest: set<Table>, discardTs: nat)
    requires WellFormed(a) && MemoryOrder(a) && HotOrder(a) && HotSplit(a, top, rest) && !HotOverlap(a, HotInputs(a, top))
    ensures !Resurrects(Files(HotInputs(a, top)), Memory(a) + Files(ColdTables(a)) + Files(HotRest(a, top, rest)), discardTs)
  {
    hide Newest;
    var inputs := HotInputs(a, top);
    var others := Memory(a) + Files(ColdTables(a)) + Files(HotRest(a, top, rest));
    forall d, r | d in Files(inputs) && r in others && d.key.user == r.key.user ensures d.key.ts < r.key.ts {
      if r in Files(ColdTables(a)) {
        NoColdVersion(a, top, rest, d, r);
        assert false;
      } else if r in Files(HotRest(a, top, rest)) {
        HotRestIsNewer(a, top, rest, d, r);
      } else {
        assert HotTables(a) == inputs + HotRest(a, top, rest);
        FilesUnion(inputs, HotRest(a, top, rest));
      }
    }
    NewerIsHarmless(Files(inputs), others, discardTs);
  }

  lemma NewerIsHarmless(inputs: set<Entry>, rest: set<Entry>, discardTs: nat)
    requires forall d, r | d in inputs && r in rest && d.key.user == r.key.user :: d.key.ts < r.key.ts
    ensures !Resurrects(inputs, rest, discardTs)
  {
  }

  ghost predicate HotMove(s: System, t: System, top: set<Table>, rest: set<Table>, job: Job) {
    && HotSplit(s.tree, top, rest)
    && t.written == s.written && t.discardTs == s.discardTs
    && t.tree == s.tree.(hot := t.tree.hot, hotOrd := s.tree.hotOrd - Bottom(s.tree.hotOrd, top) + job.outcome)
    && AsSet(t.tree.hot) == rest
    && Compacts(s, HotInputs(s.tree, top), HotOverlap(s.tree, HotInputs(s.tree, top)), job)
  }

  lemma HotFiles(s: System, t: System, top: set<Table>, rest: set<Table>, job: Job)
    requires HotMove(s, t, top, rest, job)
    ensures Files(HotTables(s.tree)) == Files(HotInputs(s.tree, top)) + Files(HotRest(s.tree, top, rest))
    ensures Files(HotTables(t.tree)) == Files(job.outcome) + Files(HotRest(s.tree, top, rest))
    ensures ColdTables(t.tree) == ColdTables(s.tree) && Memory(t.tree) == Memory(s.tree)
  {
    var inputs, kept := HotInputs(s.tree, top), HotRest(s.tree, top, rest);
    assert HotTables(s.tree) == inputs + kept;
    assert HotTables(t.tree) == job.outcome + kept;
    FilesUnion(inputs, kept);
    FilesUnion(job.outcome, kept);
    assert forall n | 0 <= n <= |s.tree.levels| :: Level(t.tree, n) == Level(s.tree, n);
  }

  lemma HotMoveSafe(s: System, t: System, top: set<Table>, rest: set<Table>, job: Job)
    requires Structure(s) && HotMove(s, t, top, rest, job)
    ensures All(t.tree) <= All(s.tree) && SameReads(All(s.tree), All(t.tree), s.discardTs)
    ensures Files(HotTables(t.tree)) <= Files(HotTables(s.tree))
  {
    hide SameReads, Resurrects;
    var a := s.tree;
    var inputs := HotInputs(a, top);
    var p := OutcomeIsSubset(s, inputs, HotOverlap(a, inputs), job);
    HotFiles(s, t, top, rest, job);
    var others := Memory(a) + Files(ColdTables(a)) + Files(HotRest(a, top, rest));
    assert All(a) == Files(inputs) + others && All(t.tree) == Files(job.outcome) + others;
    if !p.hasOverlap {
      HotHarmless(a, top, rest, s.discardTs);
    }
    CompactionIsExact(p, job.merged, others);
  }

  lemma HotMoveOrder(s: System, t: System, top: set<Table>, rest: set<Table>, job: Job)
    requires WellFormed(s.tree) && HotOrder(s.tree) && HotMove(s, t, top, rest, job)
    ensures Newer(Files(AsSet(t.tree.hot)), Files(t.tree.hotOrd)) && WellFormed(t.tree)
  {
    var a := s.tree;
    var bottom := Bottom(a.hotOrd, top);
    var p := OutcomeIsSubset(s, HotInputs(a, top), HotOverlap(a, HotInputs(a, top)), job);
    FilesUnion(a.hotOrd - bottom, job.outcome);
    FilesUnion(top, bottom);
    FilesUnion(top, rest);
    assert Files(bottom) <= Files(a.hotOrd) && Files(a.hotOrd - bottom) <= Files(a.hotOrd);
    RewriteKeepsSeparate(a.hotOrd, top, job.outcome);
    assert forall n | 1 <= n <= |a.levels| :: Level(t.tree, n) == Level(a, n);
    assert forall x | x in t.tree.hot :: x in rest;
  }

  lemma HotMoveKeeps(s: System, t: System, top: set<Table>, rest: set<Table>, job: Job)
    requires Structure(s) && HotMove(s, t, top, rest, job) && ByAge(t.tree.hot)
    ensures Structure(t)
  {
    hide ByAge, SameReads, HotOverlap, MemoryOrder, Newer, Filter, WellFormed, Faithful, Files, Compacts;
    HotMoveSafe(s, t, top, rest, job);
    HotMoveOrder(s, t, top, rest, job);
    HotFiles(s, t, top, rest, job);
    FewerFiles(s, t);
  }

  lemma HotMoves(s: System, e: Event)
    requires WellFormed(s.tree) && HotOrder(s.tree) && Enabled(s, e) && e.CompactHot?
    ensures HotMove(s, Step(s, e), AsSet(s.tree.hot[..e.count]), AsSet(s.tree.hot[e.count..]), e.job)
    ensures ByAge(Step(s, e).tree.hot)
  {
    OldestFirst(s.tree.hot, e.count);
  }

  // ---------- Eviction ----------

  /** A table of L99 moves into level `base` of the cold tree. */
  ghost predicate EvictMove(a: Tree, b: Tree, base: nat, table: Table, outcome: set<Table>) {
    && table in a.hotOrd && 1 <= base <= |a.levels| == |b.levels|
    && b.mem == a.mem && b.l0 == a.l0 && b.hot == a.hot && b.hotOrd == a.hotOrd - {table}
    && Level(b, base) == Level(a, base) - Bottom(Level(a, base), {table}) + outcome
    && forall k | 0 <= k <= |a.levels| && k != base :: Level(b, k) == Level(a, k)
  }

  ghost function EvictInputs(a: Tree, base: nat, table: Table): set<Table>
    requires base <= |a.levels|
  {
    {table} + Bottom(Level(a, base), {table})
  }

  /** The cold tables that an eviction leaves alone. */
  ghost function EvictKept(a: Tree, base: nat, table: Table): set<Table>
    requires base <= |a.levels|
  {
    (Level(a, base) - Bottom(Level(a, base), {table})) + set k, t | 0 <= k <= |a.levels| && k != base && t in Level(a, k) :: t
  }

  ghost function EvictRest(a: Tree, base: nat, table: Table): set<Entry>
    requires base <= |a.levels|
  {
    Memory(a) + Files(EvictKept(a, base, table)) + Files(AsSet(a.hot) + (a.hotOrd - {table}))
  }

  lemma EvictTables(a: Tree, b: Tree, base: nat, table: Table, outcome: set<Table>)
    requires EvictMove(a, b, base, table, outcome)
    ensures ColdTables(a) == Bottom(Level(a, base), {table}) + EvictKept(a, base, table)
    ensures ColdTables(b) == outcome + EvictKept(a, base, table)
    ensures HotTables(b) == AsSet(a.hot) + (a.hotOrd - {table}) && HotTables(a) == HotTables(b) + {table}
  {
    var bottom, kept := Bottom(Level(a, base), {table}), EvictKept(a, base, table);
    forall t ensures t in ColdTables(a) <==> t in bottom + kept {
      if t in ColdTables(a) {
        var k :| 0 <= k <= |a.levels| && t in Level(a, k);
      }
    }
    forall t ensures t in ColdTables(b) <==> t in outcome + kept {
      if t in ColdTables(b) {
        var k :| 0 <= k <= |b.levels| && t in Level(b, k);
      }
      if t in outcome {
        assert t in Level(b, base);
      }
    }
  }

  lemma EvictFiles(a: Tree, b: Tree, base: nat, table: Table, outcome: set<Table>)
    requires EvictMove(a, b, base, table, outcome)
    ensures All(a) == Files(EvictInputs(a, base, table)) + EvictRest(a, base, table)
    ensures All(b) == Files(outcome) + EvictRest(a, base, table)
    ensures Memory(b) == Memory(a) && Files(HotTables(b)) <= Files(HotTables(a))
  {
    hide EvictKept;
    var bottom, kept := Bottom(Level(a, base), {table}), EvictKept(a, base, table);
    EvictTables(a, b, base, table, outcome);
    FilesUnion(bottom, kept);
    FilesUnion(outcome, kept);
    FilesUnion({table}, bottom);
    FilesUnion(HotTables(b), {table});
  }

  /** Unless the cold tree overlaps, all that stays of the evicted keys is newer. */
  lemma EvictHarmless(a: Tree, base: nat, table: Table, discardTs: nat)
    requires WellFormed(a) && MemoryOrder(a) && HotOrder(a) && table in a.hotOrd && 1 <= base <= |a.levels|
    requires !HotOverlap(a, EvictInputs(a, base, table))
    ensures !Resurrects(Files(EvictInputs(a, base, table)), EvictRest(a, base, table), discardTs)
  {
    hide Newest;
    var inputs, others := EvictInputs(a, base, table), EvictRest(a, base, table);
    forall d, r | d in Files(inputs) && r in others && d.key.user == r.key.user ensures d.key.ts < r.key.ts {
      NothingCold(a, base, table);
      var y := InFiles(inputs, d);
      assert d in Files(a.hotOrd);
      if r in Memory(a) {
        assert d in Files(HotTables(a));
      } else {
        var x := InFiles(AsSet(a.hot) + (a.hotOrd - {table}) + EvictKept(a, base, table), r);
        if x in AsSet(a.hot) {
          assert r in Files(AsSet(a.hot));
        } else if x in a.hotOrd - {table} {
          SeparateUsers(a.hotOrd, x, table, r, d);
          assert false;
        } else {
          ColdKept(a, base, table, x);
          SharedUserTouches(x, r, inputs, y, d);
          assert false;
        }
      }
    }
    NewerIsHarmless(Files(inputs), others, discardTs);
  }

  lemma ColdKept(a: Tree, base: nat, table: Table, x: Table)
    requires WellFormed(a) && 1 <= base <= |a.levels| && x in EvictKept(a, base, table)
    ensures x in ColdTables(a) && x.Valid()
  {
    if x in Level(a, base) {
      assert x in ColdTables(a);
    } else {
      var k :| 0 <= k <= |a.levels| && k != base && x in Level(a, k);
      assert x in ColdTables(a);
    }
    ColdIsValid(a, x);
  }

  lemma NothingCold(a: Tree, base: nat, table: Table)
    requires WellFormed(a) && table in a.hotOrd && 1 <= base <= |a.levels| && !HotOverlap(a, EvictInputs(a, base, table))
    ensures EvictInputs(a, base, table) == {table}
  {
    forall x | x in Bottom(Level(a, base), {table}) ensures false {
      assert x in ColdTables(a) && TouchesRange(x, EvictInputs(a, base, table));
    }
  }

  lemma EvictMoveSafe(s: System, t: System, base: nat, table: Table, job: Job)
    requires Structure(s) && EvictMove(s.tree, t.tree, base, table, job.outcome)
    requires t.written == s.written && t.discardTs == s.discardTs
    requires var inputs := EvictInputs(s.tree, base, table); Compacts(s, inputs, HotOverlap(s.tree, inputs), job)
    ensures All(t.tree) <= All(s.tree) && SameReads(All(s.tree), All(t.tree), s.discardTs)
    ensures Files(job.outcome) <= Files(EvictInputs(s.tree, base, table))
  {
    hide SameReads, Resurrects;
    var a := s.tree;
    var inputs := EvictInputs(a, base, table);
    var p := OutcomeIsSubset(s, inputs, HotOverlap(a, inputs), job);
    EvictFiles(a, t.tree, base, table, job.outcome);
    var others := EvictRest(a, base, table);
    if !p.hasOverlap {
      EvictHarmless(a, base, table, s.discardTs);
    }
    CompactionIsExact(p, job.merged, others);
  }

  lemma EvictKeeps(s: System, t: System, base: nat, table: Table, job: Job)
    requires Structure(s) && EvictMove(s.tree, t.tree, base, table, job.outcome)
    requires t.written == s.written && t.discardTs == s.discardTs
    requires var inputs := EvictInputs(s.tree, base, table); Compacts(s, inputs, HotOverlap(s.tree, inputs), job)
    ensures Structure(t)
  {
    hide ByAge, SameReads, HotOverlap, EvictRest, Newer, Files, WellFormed, MemoryOrder, Faithful;
    EvictMoveSafe(s, t, base, table, job);
    EvictOnFile(s.tree, t.tree, base, table, job.outcome);
    EvictWellFormed(s.tree, t.tree, base, table, job.outcome);
    FewerFiles(s, t);
    EvictHot(s.tree, t.tree, base, table, job.outcome);
  }

  lemma EvictWellFormed(a: Tree, b: Tree, base: nat, table: Table, outcome: set<Table>)
    requires WellFormed(a) && EvictMove(a, b, base, table, outcome)
    requires Separate(outcome) && Files(outcome) <= Files(EvictInputs(a, base, table))
    ensures WellFormed(b)
  {
    RewriteKeepsSeparate(Level(a, base), {table}, outcome);
  }

  /** All that is on file after an eviction was so before. */
  lemma EvictOnFile(a: Tree, b: Tree, base: nat, table: Table, outcome: set<Table>)
    requires EvictMove(a, b, base, table, outcome)
    requires Files(outcome) <= Files(EvictInputs(a, base, table))
    ensures Files(ColdTables(b)) + Files(HotTables(b)) <= Files(ColdTables(a)) + Files(HotTables(a))
    ensures Files(HotTables(b)) <= Files(HotTables(a))
    ensures Files(ColdTables(b)) <= Files(ColdTables(a)) + Set(table.entries)
  {
    hide EvictKept, Bottom;
    EvictTables(a, b, base, table, outcome);
    var bottom, kept := Bottom(Level(a, base), {table}), EvictKept(a, base, table);
    FilesUnion(bottom, kept);
    FilesUnion(outcome, kept);
    FilesUnion({table}, bottom);
    FilesUnion(HotTables(b), {table});
    assert Files({table}) <= Set(table.entries);
  }

  lemma EvictHot(a: Tree, b: Tree, base: nat, table: Table, outcome: set<Table>)
    requires HotOrder(a) && EvictMove(a, b, base, table, outcome)
    ensures HotOrder(b)
  {
    hide ByAge;
    assert Files(b.hotOrd) <= Files(a.hotOrd);
  }

  // ---------- Expiry ----------

  lemma AgedKey(e: Entry, keys: set<InternalKey>)
    ensures Aged(e, keys).key == e.key
  {
  }

  lemma AgedValid(t: Table, keys: set<InternalKey>)
    ensures AgedTable(t, keys).Valid() <==> t.Valid()
    ensures AgedTable(t, keys).Lo() == t.Lo() && AgedTable(t, keys).Hi() == t.Hi()
    ensures Set(AgedTable(t, keys).entries) == AgedEntries(Set(t.entries), keys)
  {
    var u := AgedTable(t, keys);
    assert |u.entries| == |t.entries| && forall i | 0 <= i < |t.entries| :: u.entries[i] == Aged(t.entries[i], keys);
    forall e ensures e in Set(u.entries) <==> e in AgedEntries(Set(t.entries), keys) {
      if e in Set(u.entries) {
        var i :| 0 <= i < |u.entries| && u.entries[i] == e;
        assert t.entries[i] in Set(t.entries);
      }
      if e in AgedEntries(Set(t.entries), keys) {
        var x :| x in Set(t.entries) && e == Aged(x, keys);
        var i :| 0 <= i < |t.entries| && t.entries[i] == x;
        assert u.entries[i] == e;
      }
    }
    if u.Valid() {
      forall i, j | 0 <= i < j < |t.entries| ensures Before(t.entries[i].key, t.entries[j].key) {
        assert Before(u.entries[i].key, u.entries[j].key);
      }
    }
  }

  lemma AgedFiles(tables: set<Table>, keys: set<InternalKey>)
    ensures Files(AgedTables(tables, keys)) == AgedEntries(Files(tables), keys)
  {
    forall e ensures e in Files(AgedTables(tables, keys)) <==> e in AgedEntries(Files(tables), keys) {
      if e in Files(AgedTables(tables, keys)) {
        var u := InFiles(AgedTables(tables, keys), e);
        var t :| t in tables && u == AgedTable(t, keys);
        AgedValid(t, keys);
        assert e in Set(u.entries);
        var x :| x in Set(t.entries) && e == Aged(x, keys);
        assert x in Files(tables);
      }
      if e in AgedEntries(Files(tables), keys) {
        var x :| x in Files(tables) && e == Aged(x, keys);
        var t := InFiles(tables, x);
        AgedValid(t, keys);
        assert x in Set(t.entries) && e in Set(AgedTable(t, keys).entries);
        assert AgedTable(t, keys) in AgedTables(tables, keys);
      }
    }
  }

  lemma AgedAsSet(tables: seq<Table>, keys: set<InternalKey>)
    ensures AsSet(AgedList(tables, keys)) == AgedTables(AsSet(tables), keys)
  {
    var now := AgedList(tables, keys);
    forall t ensures t in AsSet(now) <==> t in AgedTables(AsSet(tables), keys) {
      if t in AsSet(now) {
        var i :| 0 <= i < |now| && now[i] == t;
        assert tables[i] in AsSet(tables) && t == AgedTable(tables[i], keys);
      }
      if t in AgedTables(AsSet(tables), keys) {
        var x :| x in AsSet(tables) && t == AgedTable(x, keys);
        var i :| 0 <= i < |tables| && tables[i] == x;
        assert now[i] == t;
      }
    }
  }

  lemma AgedUnion(x: set<Entry>, y: set<Entry>, keys: set<InternalKey>)
    ensures AgedEntries(x + y, keys) == AgedEntries(x, keys) + AgedEntries(y, keys)
  {
    forall e ensures e in AgedEntries(x + y, keys) <==> e in AgedEntries(x, keys) + AgedEntries(y, keys) {
      if e in AgedEntries(x + y, keys) {
        var f :| f in x + y && e == Aged(f, keys);
        assert f in x || f in y;
      }
    }
  }

  lemma AgedNewer(x: set<Entry>, y: set<Entry>, keys: set<InternalKey>)
    requires Newer(x, y)
    ensures Newer(AgedEntries(x, keys), AgedEntries(y, keys))
  {
    forall a, b | a in AgedEntries(x, keys) && b in AgedEntries(y, keys) && a.key.user == b.key.user ensures b.key.ts < a.key.ts {
      var e :| e in x && a == Aged(e, keys);
      var f :| f in y && b == Aged(f, keys);
    }
  }

  lemma AgedSeparate(tables: set<Table>, keys: set<InternalKey>)
    requires Separate(tables)
    ensures Separate(AgedTables(tables, keys))
  {
    forall t | t in AgedTables(tables, keys) ensures t.Valid() {
      var x :| x in tables && t == AgedTable(x, keys);
      AgedValid(x, keys);
    }
    forall a, b | a in AgedTables(tables, keys) && b in AgedTables(tables, keys) && a != b
      ensures a.Hi() < b.Lo() || b.Hi() < a.Lo()
    {
      var x :| x in tables && a == AgedTable(x, keys);
      var y :| y in tables && b == AgedTable(y, keys);
      AgedValid(x, keys);
      AgedValid(y, keys);
    }
  }

  lemma AgedByAge(tables: seq<Table>, keys: set<InternalKey>)
    requires ByAge(tables)
    ensures ByAge(AgedList(tables, keys))
  {
    var now := AgedList(tables, keys);
    forall i, j | 0 <= i < j < |now| ensures Newer(Set(now[j].entries), Set(now[i].entries)) {
      AgedValid(tables[i], keys);
      AgedValid(tables[j], keys);
      AgedNewer(Set(tables[j].entries), Set(tables[i].entries), keys);
    }
  }

  lemma AgedLevels(a: Tree, keys: set<InternalKey>)
    ensures var b := AgedTree(a, keys);
            && |b.levels| == |a.levels| && |b.mem| == |a.mem|
            && forall n | 0 <= n <= |a.levels| :: Level(b, n) == AgedTables(Level(a, n), keys)
  {
    AgedAsSet(a.l0, keys);
  }

  lemma AgedContents(a: Tree, keys: set<InternalKey>)
    ensures var b := AgedTree(a, keys);
            && Memory(b) == AgedEntries(Memory(a), keys)
            && Files(ColdTables(b)) == AgedEntries(Files(ColdTables(a)), keys)
            && Files(HotTables(b)) == AgedEntries(Files(HotTables(a)), keys)
            && All(b) == AgedEntries(All(a), keys)
  {
    var b := AgedTree(a, keys);
    AgedLevels(a, keys);
    forall e ensures e in Memory(b) <==> e in AgedEntries(Memory(a), keys) {
      if e in Memory(b) {
        var i :| 0 <= i < |b.mem| && e in b.mem[i];
        var x :| x in a.mem[i] && e == Aged(x, keys);
        assert x in Memory(a);
      }
      if e in AgedEntries(Memory(a), keys) {
        var x :| x in Memory(a) && e == Aged(x, keys);
        var i :| 0 <= i < |a.mem| && x in a.mem[i];
        assert e in b.mem[i];
      }
    }
    AgedCold(a, keys);
    AgedFiles(ColdTables(a), keys);
    AgedAsSet(a.hot, keys);
    AgedHot(a, keys);
    AgedFiles(HotTables(a), keys);
    AgedUnion(Memory(a), Files(ColdTables(a)), keys);
    AgedUnion(Memory(a) + Files(ColdTables(a)), Files(HotTables(a)), keys);
  }

  lemma AgedCold(a: Tree, keys: set<InternalKey>)
    ensures ColdTables(AgedTree(a, keys)) == AgedTables(ColdTables(a), keys)
  {
    var b := AgedTree(a, keys);
    AgedLevels(a, keys);
    forall t ensures t in ColdTables(b) <==> t in AgedTables(ColdTables(a), keys) {
      if t in ColdTables(b) {
        var n :| 0 <= n <= |b.levels| && t in Level(b, n);
        var x :| x in Level(a, n) && t == AgedTable(x, keys);
        assert x in ColdTables(a);
      }
      if t in AgedTables(ColdTables(a), keys) {
        var x :| x in ColdTables(a) && t == AgedTable(x, keys);
        var n :| 0 <= n <= |a.levels| && x in Level(a, n);
        assert t in Level(b, n);
      }
    }
  }

  lemma AgedHot(a: Tree, keys: set<InternalKey>)
    ensures HotTables(AgedTree(a, keys)) == AgedTables(HotTables(a), keys)
  {
    AgedAsSet(a.hot, keys);
    forall t ensures t in HotTables(AgedTree(a, keys)) <==> t in AgedTables(HotTables(a), keys) {
      if t in AgedTables(HotTables(a), keys) {
        var x :| x in HotTables(a) && t == AgedTable(x, keys);
        assert x in AsSet(a.hot) || x in a.hotOrd;
      }
    }
  }

  lemma ExpireKeeps(s: System, keys: set<InternalKey>)
    requires Structure(s)
    ensures Structure(s.(tree := AgedTree(s.tree, keys), written := AgedEntries(s.written, keys)))
  {
    hide Files, AgedEntries, AgedTables, Newer, Memory, ColdTables, HotTables, ByAge, All, AgedTable, Separate, Level;
    var a, b := s.tree, AgedTree(s.tree, keys);
    AgedLevels(a, keys);
    AgedContents(a, keys);
    AgedByAge(a.l0, keys);
    AgedByAge(a.hot, keys);
    AgedNewer(Memory(a), Files(ColdTables(a)), keys);
    AgedNewer(Memory(a), Files(HotTables(a)), keys);
    AgedNewer(Files(AsSet(a.hot)), Files(a.hotOrd), keys);
    AgedAsSet(a.hot, keys);
    AgedFiles(AsSet(a.hot), keys);
    AgedFiles(a.hotOrd, keys);
    AgedSeparate(a.hotOrd, keys);
    forall n | 1 <= n <= |b.levels| ensures Separate(Level(b, n)) {
      AgedSeparate(Level(a, n), keys);
    }
    forall t | t in b.l0 + b.hot ensures t.Valid() {
      AgedListValid(a.l0, keys);
      AgedListValid(a.hot, keys);
    }
    forall i, j | 0 <= i < j < |b.mem| ensures Newer(b.mem[i], b.mem[j]) {
      AgedNewer(a.mem[i], a.mem[j], keys);
    }
    AgedFaithful(All(a), s.written, keys);
  }

  lemma AgedListValid(tables: seq<Table>, keys: set<InternalKey>)
    requires forall t | t in tables :: t.Valid()
    ensures forall t | t in AgedList(tables, keys) :: t.Valid()
  {
    var now := AgedList(tables, keys);
    forall t | t in now ensures t.Valid() {
      var i :| 0 <= i < |now| && now[i] == t;
      AgedValid(tables[i], keys);
    }
  }

  lemma AgedFaithful(all: set<Entry>, written: set<Entry>, keys: set<InternalKey>)
    requires all <= written && forall a, b | a in written && b in written && a.key == b.key :: a == b
    ensures AgedEntries(all, keys) <= AgedEntries(written, keys)
    ensures forall a, b | a in AgedEntries(written, keys) && b in AgedEntries(written, keys) && a.key == b.key :: a == b
  {
    forall a, b | a in AgedEntries(written, keys) && b in AgedEntries(written, keys) && a.key == b.key ensures a == b {
      var x :| x in written && a == Aged(x, keys);
      var y :| y in written && b == Aged(y, keys);
    }
  }

  lemma AgedNewest(s: set<Entry>, keys: set<InternalKey>, user: UserKey, ts: nat, e: Entry)
    requires Newest(s, user, ts, e)
    ensures Newest(AgedEntries(s, keys), user, ts, Aged(e, keys))
  {
    forall f | f in AgedEntries(s, keys) && f.key.user == user && f.key.ts <= ts ensures f.key.ts <= e.key.ts {
      var x :| x in s && f == Aged(x, keys);
    }
  }

  /** What a set answers after its entries have aged. */
  lemma AgedReads(s: set<Entry>, keys: set<InternalKey>, user: UserKey, ts: nat, answer: Option<Entry>)
    requires Functional(s) && Reads(s, user, ts, answer)
    ensures Functional(AgedEntries(s, keys))
    ensures forall now :: Reads(AgedEntries(s, keys), user, ts, now) <==>
            now == if answer.Some? && answer.value.key !in keys then answer else None
  {
    var t := AgedEntries(s, keys);
    AgedFaithful(s, s, keys);
    forall now ensures Reads(t, user, ts, now) <==> now == if answer.Some? && answer.value.key !in keys then answer else None {
      if answer.Some? {
        AgedNewest(s, keys, user, ts, answer.value);
        UniqueNewest(t, user, ts, Aged(answer.value, keys), now);
      } else if Absent(s, user, ts) {
        assert Absent(t, user, ts);
        AbsentReads(t, user, ts, now);
      } else {
        var e :| Newest(s, user, ts, e) && e.dead;
        AgedNewest(s, keys, user, ts, e);
        UniqueNewest(t, user, ts, Aged(e, keys), now);
      }
    }
  }

  lemma SomeAnswer(s: set<Entry>, user: UserKey, ts: nat) returns (answer: Option<Entry>)
    ensures Reads(s, user, ts, answer)
  {
    if Absent(s, user, ts) {
      answer := None;
    } else {
      NewestExists(s, user, ts);
      var e :| Newest(s, user, ts, e);
      answer := if e.dead then None else Some(e);
    }
  }

  /** Expiry shows in the history of writes and in the tree alike. */
  lemma ExpireReads(a: set<Entry>, b: set<Entry>, keys: set<InternalKey>, from: nat)
    requires SameReads(a, b, from) && Functional(a) && b <= a
    ensures SameReads(AgedEntries(a, keys), AgedEntries(b, keys), from)
  {
    hide Reads, Newest;
    forall user: UserKey, ts: nat, now: Option<Entry> | from <= ts
      ensures Reads(AgedEntries(a, keys), user, ts, now) <==> Reads(AgedEntries(b, keys), user, ts, now)
    {
      var answer := SomeAnswer(a, user, ts);
      AgedReads(a, keys, user, ts, answer);
      AgedReads(b, keys, user, ts, answer);
    }
  }

  // ---------- Writes and flushes ----------

  lemma PutReads(a: set<Entry>, x: Entry, user: UserKey, ts: nat, answer: Option<Entry>)
    requires forall h | h in a && h.key.user == x.key.user :: h.key.ts < x.key.ts
    ensures Reads(a + {x}, user, ts, answer) <==>
            if user == x.key.user && x.key.ts <= ts then answer == (if x.dead then None else Some(x))
            else Reads(a, user, ts, answer)
  {
    var b := a + {x};
    if user == x.key.user && x.key.ts <= ts {
      assert Newest(b, user, ts, x);
      assert forall e | Newest(b, user, ts, e) :: e == x;
    } else {
      assert forall e :: Newest(b, user, ts, e) <==> Newest(a, user, ts, e);
      assert Absent(b, user, ts) <==> Absent(a, user, ts);
    }
  }

  lemma PutKeepsReads(a: set<Entry>, b: set<Entry>, x: Entry, from: nat)
    requires SameReads(a, b, from) && b <= a
    requires forall h | h in a && h.key.user == x.key.user :: h.key.ts < x.key.ts
    ensures SameReads(a + {x}, b + {x}, from)
  {
    forall user: UserKey, ts: nat, answer: Option<Entry> | from <= ts
      ensures Reads(a + {x}, user, ts, answer) <==> Reads(b + {x}, user, ts, answer)
    {
      PutReads(a, x, user, ts, answer);
      PutReads(b, x, user, ts, answer);
    }
  }

  lemma MemoryAfterPut(a: Tree, b: Tree, x: Entry)
    requires b == a.(mem := if a.mem == [] then [{x}] else a.mem[0 := a.mem[0] + {x}])
    ensures Memory(b) == Memory(a) + {x}
    ensures ColdTables(b) == ColdTables(a) && HotTables(b) == HotTables(a)
  {
    forall e ensures e in Memory(b) <==> e in Memory(a) + {x} {
      if e in Memory(a) {
        var i :| 0 <= i < |a.mem| && e in a.mem[i];
        assert e in b.mem[i];
      }
      if e == x {
        assert e in b.mem[0];
      }
    }
    assert forall n | 0 <= n <= |a.levels| :: Level(b, n) == Level(a, n);
  }

  lemma NewerWith(upper: set<Entry>, lower: set<Entry>, x: Entry)
    requires Newer(upper, lower) && forall h | h in lower && h.key.user == x.key.user :: h.key.ts < x.key.ts
    ensures Newer(upper + {x}, lower)
  {
  }

  lemma PutKeepsMemory(a: Tree, b: Tree, x: Entry)
    requires MemoryOrder(a) && b == a.(mem := if a.mem == [] then [{x}] else a.mem[0 := a.mem[0] + {x}])
    requires forall h | h in All(a) && h.key.user == x.key.user :: h.key.ts < x.key.ts
    ensures MemoryOrder(b)
  {
    hide Files, ColdTables, HotTables;
    MemoryAfterPut(a, b, x);
    forall j, h | 0 <= j < |a.mem| && h in a.mem[j] ensures h in Memory(a) {
    }
    assert forall i, j | 0 <= i < j < |a.mem| :: Newer(a.mem[i], a.mem[j]);
    NewerWith(Memory(a), Files(ColdTables(a)), x);
    NewerWith(Memory(a), Files(HotTables(a)), x);
    forall i, j | 0 <= i < j < |b.mem| ensures Newer(b.mem[i], b.mem[j]) {
      NewerWith(a.mem[i], a.mem[j], x);
    }
  }

  /** Steps that touch memory only. */
  lemma TablesSame(a: Tree, b: Tree)
    requires b.l0 == a.l0 && b.levels == a.levels && b.hot == a.hot && b.hotOrd == a.hotOrd
    ensures WellFormed(b) == WellFormed(a) && HotOrder(b) == HotOrder(a)
    ensures ColdTables(b) == ColdTables(a) && HotTables(b) == HotTables(a)
    ensures forall n | 0 <= n <= |a.levels| :: Level(b, n) == Level(a, n)
  {
    hide Separate, Newer, Files;
    assert forall n | 0 <= n <= |a.levels| :: Level(b, n) == Level(a, n);
  }

  lemma PutKeeps(s: System, e: Event)
    requires Structure(s) && Enabled(s, e) && e.Put?
    ensures Structure(Step(s, e))
    ensures SameReads(s.written, All(s.tree), s.discardTs) ==> SameReads(Step(s, e).written, All(Step(s, e).tree), s.discardTs)
  {
    hide WellFormed, MemoryOrder, HotOrder, ByAge, SameReads, ColdTables, HotTables, Memory, Reads;
    var t := Step(s, e);
    TablesSame(s.tree, t.tree);
    MemoryAfterPut(s.tree, t.tree, e.e);
    if SameReads(s.written, All(s.tree), s.discardTs) {
      PutKeepsReads(s.written, All(s.tree), e.e, s.discardTs);
    }
    PutKeepsMemory(s.tree, t.tree, e.e);
    assert All(t.tree) == All(s.tree) + {e.e};
  }

  lemma RotateMemory(a: Tree, b: Tree)
    requires b == a.(mem := [{}] + a.mem)
    ensures Memory(b) == Memory(a)
  {
    forall x | x in Memory(a) ensures x in Memory(b) {
      var i :| 0 <= i < |a.mem| && x in a.mem[i];
      assert x in b.mem[i + 1];
    }
  }

  lemma RotateKeeps(s: System, e: Event)
    requires Structure(s) && Enabled(s, e) && e.Rotate?
    ensures Structure(Step(s, e)) && All(Step(s, e).tree) == All(s.tree)
  {
    hide WellFormed, HotOrder, ByAge, ColdTables, HotTables, Memory;
    var t := Step(s, e);
    TablesSame(s.tree, t.tree);
    RotateMemory(s.tree, t.tree);
    assert All(t.tree) == All(s.tree);
  }

  ghost predicate FlushMove(s: System, t: System, hotChoice: set<Entry>, cold: seq<Table>, warm: seq<Table>) {
    && |s.tree.mem| >= 2 && t.written == s.written && t.discardTs == s.discardTs
    && t.tree == s.tree.(mem := s.tree.mem[..|s.tree.mem| - 1], l0 := s.tree.l0 + cold, hot := s.tree.hot + warm)
    && Holds(cold, ColdPart(Flushed(s), hotChoice)) && Holds(warm, HotPart(Flushed(s), hotChoice))
  }

  ghost function Flushed(s: System): set<Entry>
    requires s.tree.mem != []
  {
    s.tree.mem[|s.tree.mem| - 1]
  }

  lemma HoldsFiles(tables: seq<Table>, es: set<Entry>)
    requires Holds(tables, es)
    ensures Files(AsSet(tables)) == es
  {
    if tables != [] {
      assert tables == [tables[0]];
      forall e ensures e in Files(AsSet(tables)) <==> e in es {
        if e in es {
          assert tables[0] in AsSet(tables) && e in tables[0].entries;
        }
      }
    }
  }

  lemma FlushedTables(s: System, t: System, hotChoice: set<Entry>, cold: seq<Table>, warm: seq<Table>)
    requires FlushMove(s, t, hotChoice, cold, warm)
    ensures ColdTables(t.tree) == ColdTables(s.tree) + AsSet(cold)
    ensures HotTables(t.tree) == HotTables(s.tree) + AsSet(warm)
    ensures Memory(s.tree) == Memory(t.tree) + Flushed(s)
    ensures forall n | 1 <= n <= |s.tree.levels| :: Level(t.tree, n) == Level(s.tree, n)
    ensures Level(t.tree, 0) == Level(s.tree, 0) + AsSet(cold)
  {
    assert Level(t.tree, 0) == Level(s.tree, 0) + AsSet(cold);
    forall x ensures x in ColdTables(t.tree) <==> x in ColdTables(s.tree) + AsSet(cold) {
      if x in ColdTables(s.tree) {
        var n :| 0 <= n <= |s.tree.levels| && x in Level(s.tree, n);
        assert x in Level(t.tree, n);
      }
      if x in ColdTables(t.tree) {
        var n :| 0 <= n <= |t.tree.levels| && x in Level(t.tree, n);
        if n > 0 {
          assert x in Level(s.tree, n);
        }
      }
    }
    forall x ensures x in Memory(s.tree) <==> x in Memory(t.tree) + Flushed(s) {
      if x in Memory(s.tree) {
        var i :| 0 <= i < |s.tree.mem| && x in s.tree.mem[i];
        if i < |s.tree.mem| - 1 {
          assert x in t.tree.mem[i];
        }
      }
    }
  }

  lemma FlushedFiles(s: System, t: System, hotChoice: set<Entry>, cold: seq<Table>, warm: seq<Table>)
    requires FlushMove(s, t, hotChoice, cold, warm)
    ensures Files(ColdTables(t.tree)) == Files(ColdTables(s.tree)) + ColdPart(Flushed(s), hotChoice)
    ensures Files(HotTables(t.tree)) == Files(HotTables(s.tree)) + HotPart(Flushed(s), hotChoice)
    ensures All(t.tree) == All(s.tree)
  {
    FlushedTables(s, t, hotChoice, cold, warm);
    HoldsFiles(cold, ColdPart(Flushed(s), hotChoice));
    HoldsFiles(warm, HotPart(Flushed(s), hotChoice));
    FilesUnion(ColdTables(s.tree), AsSet(cold));
    FilesUnion(HotTables(s.tree), AsSet(warm));
  }

  /** Appending a table that is newer keeps a list ordered by age. */
  lemma AppendNewest(tables: seq<Table>, more: seq<Table>, es: set<Entry>)
    requires Holds(more, es) && Newer(es, Files(AsSet(tables)))
    requires ByAge(tables)
    ensures ByAge(tables + more)
  {
    var now := tables + more;
    forall i, j | 0 <= i < j < |now| ensures Newer(Set(now[j].entries), Set(now[i].entries)) {
      if j == |tables| {
        assert now[j] == more[0] && now[i] in AsSet(tables);
        assert Set(now[i].entries) <= Files(AsSet(tables));
      }
    }
  }

  lemma FlushKeepsMemory(s: System, t: System, hotChoice: set<Entry>, cold: seq<Table>, warm: seq<Table>)
    requires MemoryOrder(s.tree) && FlushMove(s, t, hotChoice, cold, warm)
    ensures MemoryOrder(t.tree)
  {
    FlushedTables(s, t, hotChoice, cold, warm);
    FlushedFiles(s, t, hotChoice, cold, warm);
    forall x, y | x in Memory(t.tree) && y in Flushed(s) && x.key.user == y.key.user ensures y.key.ts < x.key.ts {
      var i :| 0 <= i < |t.tree.mem| && x in t.tree.mem[i];
      assert Newer(s.tree.mem[i], s.tree.mem[|s.tree.mem| - 1]);
    }
  }

  lemma FlushKeepsL0(s: System, t: System, hotChoice: set<Entry>, cold: seq<Table>, warm: seq<Table>)
    requires MemoryOrder(s.tree) && ByAge(s.tree.l0) && FlushMove(s, t, hotChoice, cold, warm)
    ensures ByAge(t.tree.l0)
  {
    hide ByAge;
    var coldPart := ColdPart(Flushed(s), hotChoice);
    HoldsFiles(cold, coldPart);
    assert coldPart <= Memory(s.tree);
    InSomeLevel(s.tree);
    assert Level(s.tree, 0) == AsSet(s.tree.l0);
    AppendNewest(s.tree.l0, cold, coldPart);
  }

  lemma FlushKeepsHot(s: System, t: System, hotChoice: set<Entry>, cold: seq<Table>, warm: seq<Table>)
    requires MemoryOrder(s.tree) && HotOrder(s.tree) && FlushMove(s, t, hotChoice, cold, warm)
    ensures HotOrder(t.tree)
  {
    var hotPart := HotPart(Flushed(s), hotChoice);
    HoldsFiles(warm, hotPart);
    assert hotPart <= Memory(s.tree);
    FilesUnion(AsSet(s.tree.hot), s.tree.hotOrd);
    AppendNewest(s.tree.hot, warm, hotPart);
    assert AsSet(t.tree.hot) == AsSet(s.tree.hot) + AsSet(warm);
    FilesUnion(AsSet(s.tree.hot), AsSet(warm));
  }

  lemma FlushKeepsTables(s: System, t: System, hotChoice: set<Entry>, cold: seq<Table>, warm: seq<Table>)
    requires WellFormed(s.tree) && FlushMove(s, t, hotChoice, cold, warm)
    ensures WellFormed(t.tree)
  {
    FlushedTables(s, t, hotChoice, cold, warm);
  }

  lemma InSomeLevel(a: Tree)
    ensures forall n | 0 <= n <= |a.levels| :: Files(Level(a, n)) <= Files(ColdTables(a))
  {
    forall n, e | 0 <= n <= |a.levels| && e in Files(Level(a, n)) ensures e in Files(ColdTables(a)) {
      var t := InFiles(Level(a, n), e);
      assert t in ColdTables(a);
    }
  }

  lemma FlushKeeps(s: System, e: Event)
    requires Structure(s) && Enabled(s, e) && e.Flush?
    ensures Structure(Step(s, e)) && All(Step(s, e).tree) == All(s.tree)
  {
    var t := Step(s, e);
    assert FlushMove(s, t, e.hotChoice, e.cold, e.warm);
    hide FlushMove, MemoryOrder, WellFormed, ByAge, HotOrder;
    FlushedFiles(s, t, e.hotChoice, e.cold, e.warm);
    FlushKeepsMemory(s, t, e.hotChoice, e.cold, e.warm);
    FlushKeepsTables(s, t, e.hotChoice, e.cold, e.warm);
    FlushKeepsL0(s, t, e.hotChoice, e.cold, e.warm);
    FlushKeepsHot(s, t, e.hotChoice, e.cold, e.warm);
  }

  // ---------- Main results ----------

  /** A step brings nothing back: what a compaction does not find to overlap hides no live older
      version that stays. It can be told from the tables before the compaction. */
  ghost predicate Lossless(s: System, e: Event)
    requires Enabled(s, e)
  {
    var tree := s.tree;
    match e
    case CompactL0(count, base, _) =>
      var top, inputs := AsSet(tree.l0[..count]), L0Inputs(tree, count, base);
      ColdOverlap(tree, inputs, 0, base, base) ||
      !Resurrects(Files(inputs), ColdRest(tree, 0, base, top, AsSet(tree.l0[count..])), s.discardTs)
    case CompactLevel(n, t, base, _) =>
      var inputs := Inputs(tree, n + 1, {t});
      ColdOverlap(tree, inputs, n, n + 1, base) ||
      !Resurrects(Files(inputs), ColdRest(tree, n, n + 1, {t}, Level(tree, n) - {t}), s.discardTs)
    case _ => true
  }

  lemma L0Step(s: System, e: Event)
    requires Structure(s) && Enabled(s, e) && e.CompactL0?
    ensures Structure(Step(s, e)) && Step(s, e).written == s.written && Step(s, e).discardTs == s.discardTs
    ensures SameReads(All(s.tree), All(Step(s, e).tree), s.discardTs) <==> Lossless(s, e)
  {
    hide Compacts, ColdOverlap, Resurrects, SameReads, MemoryOrder, HotOrder, Faithful, ColdRest;
    var t := Step(s, e);
    var top, rest := AsSet(s.tree.l0[..e.count]), AsSet(s.tree.l0[e.count..]);
    L0Moves(s.tree, t.tree, e.count, e.base, e.job.outcome);
    OldestFirst(s.tree.l0, e.count);
    ColdMoveExact(s, t, 0, e.base, top, rest, e.base, e.job);
    ColdMoveKeeps(s, t, 0, e.base, top, rest, e.base, e.job);
  }

  lemma LevelStep(s: System, e: Event)
    requires Structure(s) && Enabled(s, e) && e.CompactLevel?
    ensures Structure(Step(s, e)) && Step(s, e).written == s.written && Step(s, e).discardTs == s.discardTs
    ensures SameReads(All(s.tree), All(Step(s, e).tree), s.discardTs) <==> Lossless(s, e)
  {
    hide Compacts, ColdOverlap, ColdMove, Resurrects, SameReads, WellFormed, MemoryOrder, HotOrder, ByAge, Faithful, ColdRest, Files;
    var t, rest := Step(s, e), Level(s.tree, e.level) - {e.table};
    LevelMoves(s.tree, t.tree, e.level, e.table, e.job.outcome);
    ColdMoveExact(s, t, e.level, e.level + 1, {e.table}, rest, e.base, e.job);
    ColdMoveKeeps(s, t, e.level, e.level + 1, {e.table}, rest, e.base, e.job);
  }

  lemma HotStep(s: System, e: Event)
    requires Structure(s) && Enabled(s, e) && e.CompactHot?
    ensures Structure(Step(s, e)) && Step(s, e).written == s.written && Step(s, e).discardTs == s.discardTs
    ensures SameReads(All(s.tree), All(Step(s, e).tree), s.discardTs)
  {
    hide HotMove, SameReads, WellFormed, MemoryOrder, HotOrder, ByAge, Faithful, Compacts, HotOverlap, Bottom;
    HotMoves(s, e);
    var top, rest := AsSet(s.tree.hot[..e.count]), AsSet(s.tree.hot[e.count..]);
    HotMoveSafe(s, Step(s, e), top, rest, e.job);
    HotMoveKeeps(s, Step(s, e), top, rest, e.job);
  }

  lemma EvictMoves(s: System, e: Event)
    requires Enabled(s, e) && e.Evict?
    ensures EvictMove(s.tree, Step(s, e).tree, e.base, e.table, e.job.outcome)
    ensures Step(s, e).written == s.written && Step(s, e).discardTs == s.discardTs
  {
    hide Compacts;
  }

  lemma EvictStep(s: System, e: Event)
    requires Structure(s) && Enabled(s, e) && e.Evict?
    ensures Structure(Step(s, e)) && Step(s, e).written == s.written && Step(s, e).discardTs == s.discardTs
    ensures SameReads(All(s.tree), All(Step(s, e).tree), s.discardTs)
  {
    EvictMoves(s, e);
    hide EvictMove, SameReads, WellFormed, MemoryOrder, HotOrder, ByAge, Faithful, Compacts;
    EvictMoveSafe(s, Step(s, e), e.base, e.table, e.job);
    EvictKeeps(s, Step(s, e), e.base, e.table, e.job);
  }

  lemma ExpireStep(s: System, e: Event)
    requires Structure(s) && Enabled(s, e) && e.Expire?
    ensures Structure(Step(s, e))
    ensures SameReads(s.written, All(s.tree), s.discardTs) ==> SameReads(Step(s, e).written, All(Step(s, e).tree), s.discardTs)
  {
    hide WellFormed, MemoryOrder, HotOrder, ByAge, SameReads, AgedTree, All, AgedEntries;
    ExpireKeeps(s, e.keys);
    AgedContents(s.tree, e.keys);
    if SameReads(s.written, All(s.tree), s.discardTs) {
      ExpireReads(s.written, All(s.tree), e.keys, s.discardTs);
    }
  }

  lemma AdvanceStep(s: System, e: Event)
    requires Structure(s) && Enabled(s, e) && e.Advance?
    ensures Structure(Step(s, e))
    ensures SameReads(s.written, All(s.tree), s.discardTs) ==> SameReads(s.written, All(s.tree), Step(s, e).discardTs)
  {
    hide WellFormed, MemoryOrder, ByAge, HotOrder, All;
  }

  /** The tree answers like the history of writes. */
  ghost predicate Answers(s: System) {
    SameReads(s.written, All(s.tree), s.discardTs)
  }

  lemma StepKeeps(s: System, e: Event)
    requires Structure(s) && Enabled(s, e)
    ensures Structure(Step(s, e))
    ensures Answers(s) ==> (Answers(Step(s, e)) <==> Lossless(s, e))
  {
    hide Compacts, WellFormed, MemoryOrder, ByAge, HotOrder, Faithful, SameReads, All;
    var t := Step(s, e);
    match e {
    case Put(_) => PutKeeps(s, e);
    case Rotate => RotateKeeps(s, e);
    case Flush(_, _, _) => FlushKeeps(s, e);
    case CompactL0(_, _, _) => L0Step(s, e);
    case CompactLevel(_, _, _, _) => LevelStep(s, e);
    case CompactHot(_, _) => HotStep(s, e);
    case Evict(_, _, _) => EvictStep(s, e);
    case Expire(_) => ExpireStep(s, e);
    case Advance(_) => AdvanceStep(s, e);
    }
    if Answers(s) {
      SameReadsTrans(s.written, All(s.tree), All(t.tree), s.discardTs);
    }
  }

  lemma EmptyIsFine(maxLevels: nat)
    ensures Structure(Empty(maxLevels)) && Answers(Empty(maxLevels))
  {
    var s := Empty(maxLevels);
    assert Memory(s.tree) == {} && ColdTables(s.tree) == {} && HotTables(s.tree) == {};
    assert All(s.tree) == {};
  }

  lemma {:induction false} RunsKeep(maxLevels: nat, events: seq<Event>)
    requires IsRun(maxLevels, events)
    ensures Structure(After(maxLevels, events))
  {
    hide Structure;
    if events == [] {
      EmptyIsFine(maxLevels);
    } else {
      RunsKeep(maxLevels, events[..|events| - 1]);
      StepKeeps(After(maxLevels, events[..|events| - 1]), events[|events| - 1]);
    }
  }

  /** Every step of the run is lossless. */
  ghost predicate AllLossless(maxLevels: nat, events: seq<Event>)
    requires IsRun(maxLevels, events)
    decreases |events|
  {
    events != [] ==>
      && AllLossless(maxLevels, events[..|events| - 1])
      && Lossless(After(maxLevels, events[..|events| - 1]), events[|events| - 1])
  }

  /** The tree has answered like the history of writes after every step of the run. */
  ghost predicate AlwaysAnswered(maxLevels: nat, events: seq<Event>)
    requires IsRun(maxLevels, events)
    decreases |events|
  {
    && (events != [] ==> AlwaysAnswered(maxLevels, events[..|events| - 1]))
    && Answers(After(maxLevels, events))
  }

  /** In every run whatsoever, with evictions, expiry and any base levels: the tree answers every
      read that may still be asked like the full history of writes, all along, if and only if each
      compaction was lossless. */
  lemma {:induction false} ExactlyLossless(maxLevels: nat, events: seq<Event>)
    requires IsRun(maxLevels, events)
    ensures AlwaysAnswered(maxLevels, events) <==> AllLossless(maxLevels, events)
  {
    hide Structure, Answers, Lossless, Enabled, Step;
    if events == [] {
      EmptyIsFine(maxLevels);
    } else {
      var front := events[..|events| - 1];
      ExactlyLossless(maxLevels, front);
      RunsKeep(maxLevels, front);
      StepKeeps(After(maxLevels, front), events[|events| - 1]);
    }
  }
}
