/** levels.go, subcompact: which versions a compaction keeps, and how it cuts its output into
    tables. `Filter` is what the loop computes; `SnapshotsPreserved` is why that is safe. */
module Compaction {
  import opened Keys
  import opened Wrappers

  /** `dead` is isDeletedOrExpired at the clock of the compaction. */
  datatype Entry = Entry(key: InternalKey, dead: bool, discardEarlier: bool, merge: bool, value: int)

  /** What the builder received, and whether it was counted as stale. */
  datatype Output = Output(entry: Entry, stale: bool)

  datatype Params = Params(
    discardTs: nat, versionsToKeep: nat, hasOverlap: bool, dropped: InternalKey -> bool)

  datatype Cursor = Cursor(
    lastKey: Option<UserKey>, skipKey: Option<UserKey>, numVersions: nat, firstHasDiscard: bool)

  const START := Cursor(None, None, 0, false)

  predicate Sorted(es: seq<Entry>) {
    forall i, j | 0 <= i < j < |es| :: Before(es[i].key, es[j].key)
  }

  // ---------- Specification ----------

  predicate Passed(p: Params, c: Cursor, e: Entry) {
    p.dropped(e.key) || c.skipKey == Some(e.key.user)
  }

  predicate Stops(c: Cursor, e: Entry, right: Option<InternalKey>) {
    c.lastKey != Some(e.key.user) && right.Some? && !Before(e.key, right.value)
  }

  /** Entering a key: the skip key is cleared, and a new user key resets the counters. */
  function Enter(c: Cursor, e: Entry): Cursor {
    if c.lastKey == Some(e.key.user) then c.(skipKey := None)
    else Cursor(Some(e.key.user), None, 0, e.discardEarlier)
  }

  /** The version and tombstone rule. */
  function Judge(p: Params, c: Cursor, e: Entry): (Cursor, bool) {
    if e.key.ts <= p.discardTs && !e.merge then
      var n := c.numVersions + 1;
      var lastValid := e.discardEarlier || n == p.versionsToKeep;
      if e.dead || lastValid then
        (c.(numVersions := n, skipKey := Some(e.key.user)), (!e.dead && lastValid) || p.hasOverlap)
      else (c.(numVersions := n), true)
    else (c, true)
  }

  function Emit(c: Cursor, e: Entry, keep: bool): seq<Output> {
    if keep then [Output(e, c.firstHasDiscard || e.dead)] else []
  }

  function FilterUntil(p: Params, c: Cursor, es: seq<Entry>, right: Option<InternalKey>): seq<Output>
    decreases |es|
  {
    if es == [] then []
    else if Passed(p, c, es[0]) then FilterUntil(p, c, es[1..], right)
    else if Stops(c, es[0], right) then []
    else
      var entered := Enter(c, es[0]);
      var (judged, keep) := Judge(p, entered, es[0]);
      Emit(entered, es[0], keep) + FilterUntil(p, judged, es[1..], right)
  }

  function Filter(p: Params, es: seq<Entry>): seq<Output> {
    FilterUntil(p, START, es, None)
  }

  function Entries(out: seq<Output>): (es: seq<Entry>)
    ensures |es| == |out|
    ensures forall i | 0 <= i < |out| :: es[i] == out[i].entry
  {
    seq(|out|, i requires 0 <= i < |out| => out[i].entry)
  }

  function Concat(tables: seq<seq<Output>>): seq<Output> {
    if tables == [] then [] else Concat(tables[..|tables| - 1]) + tables[|tables| - 1]
  }

  // ---------- The loops ----------

  /** `capacity` is ReachedCapacity and `wide` is exceedsAllowedOverlap: both only decide where
      tables are cut. */
  datatype Cuts = Cuts(capacity: seq<Output> -> bool, wide: (InternalKey, InternalKey) -> bool)

  ghost predicate UsersUpTo(out: seq<Output>, user: UserKey) {
    forall o | o in out :: o.entry.key.user <= user
  }

  /** The cursor has not run ahead of the iterator. */
  predicate Behind(c: Cursor, es: seq<Entry>, pos: nat)
    requires pos <= |es|
  {
    pos < |es| && c.lastKey.Some? ==> c.lastKey.value <= es[pos].key.user
  }

  function FilterFrom(p: Params, c: Cursor, es: seq<Entry>, pos: nat, right: Option<InternalKey>): seq<Output>
    requires pos <= |es|
  {
    FilterUntil(p, c, es[pos..], right)
  }

  lemma FilterPasses(p: Params, c: Cursor, es: seq<Entry>, pos: nat, right: Option<InternalKey>)
    requires pos < |es| && Passed(p, c, es[pos])
    ensures FilterFrom(p, c, es, pos, right) == FilterFrom(p, c, es, pos + 1, right)
  {
    assert es[pos..][1..] == es[pos + 1..];
  }

  lemma FilterEnters(p: Params, c: Cursor, es: seq<Entry>, pos: nat, right: Option<InternalKey>)
    requires pos < |es| && !Passed(p, c, es[pos]) && !Stops(c, es[pos], right)
    ensures FilterFrom(p, Enter(c, es[pos]), es, pos, right) == FilterFrom(p, c, es, pos, right)
  {
    var entered := Enter(c, es[pos]);
    assert Enter(entered, es[pos]) == entered;
  }

  lemma FilterJudges(p: Params, c: Cursor, es: seq<Entry>, pos: nat, right: Option<InternalKey>)
    requires pos < |es| && !p.dropped(es[pos].key) && c.skipKey.None? && c.lastKey == Some(es[pos].key.user)
    ensures var (judged, keep) := Judge(p, c, es[pos]);
            FilterFrom(p, c, es, pos, right) == Emit(c, es[pos], keep) + FilterFrom(p, judged, es, pos + 1, right)
  {
    assert es[pos..][1..] == es[pos + 1..];
    assert Enter(c, es[pos]) == c;
  }

  lemma FilterEnds(p: Params, c: Cursor, es: seq<Entry>, right: Option<InternalKey>)
    ensures FilterFrom(p, c, es, |es|, right) == []
  {
  }

  method Decide(p: Params, c: Cursor, e: Entry) returns (cursor: Cursor, keep: bool)
    ensures (cursor, keep) == Judge(p, c, e)
  {
    cursor, keep := c, true;
    if e.key.ts <= p.discardTs && !e.merge {
      cursor := cursor.(numVersions := cursor.numVersions + 1);
      var lastValid := e.discardEarlier || cursor.numVersions == p.versionsToKeep;
      if e.dead || lastValid {
        cursor := cursor.(skipKey := Some(e.key.user));
        keep := (!e.dead && lastValid) || p.hasOverlap;
      }
    }
  }

  /** The version and tombstone rule for one entry, and its way into the builder. */
  method AddEntry(p: Params, es: seq<Entry>, pos: nat, ghost right: Option<InternalKey>, c: Cursor, built: seq<Output>)
    returns (cursor: Cursor, builder: seq<Output>)
    requires pos < |es| && !p.dropped(es[pos].key) && c.skipKey.None? && c.lastKey == Some(es[pos].key.user)
    ensures builder + FilterFrom(p, cursor, es, pos + 1, right) == built + FilterFrom(p, c, es, pos, right)
    ensures builder == built || (|builder| == |built| + 1 && builder[..|built|] == built && builder[|built|].entry == es[pos])
    ensures cursor.lastKey == c.lastKey
  {
    FilterJudges(p, c, es, pos, right);
    var keep;
    cursor, keep := Decide(p, c, es[pos]);
    builder := built;
    if keep {
      builder := builder + [Output(es[pos], cursor.firstHasDiscard || es[pos].dead)];
    }
    assert builder == built + Emit(c, es[pos], keep);
    Associate(built, Emit(c, es[pos], keep), FilterFrom(p, cursor, es, pos + 1, right));
  }

  /** The first version of a user key, at place `i`, found room in the table. */
  predicate BeginsBelow(cuts: Cuts, out: seq<Output>, i: nat)
    requires i < |out|
  {
    i == 0 || out[i - 1].entry.key.user != out[i].entry.key.user ==> !cuts.capacity(out[..i])
  }

  /** No user key was begun when the table had reached its capacity. */
  ghost predicate WithinCapacity(cuts: Cuts, out: seq<Output>) {
    forall i | 0 <= i < |out| :: BeginsBelow(cuts, out, i)
  }

  /** There is a reason to end a table here. */
  ghost predicate Full(cuts: Cuts, out: seq<Output>) {
    cuts.capacity(out) || exists left, right :: cuts.wide(left, right)
  }

  /** The table may go on with `user`. */
  ghost predicate MayBegin(cuts: Cuts, out: seq<Output>, user: Option<UserKey>) {
    out == [] || user != Some(out[|out| - 1].entry.key.user) ==> !cuts.capacity(out)
  }

  lemma NothingYet(cuts: Cuts)
    ensures WithinCapacity(cuts, [])
  {
  }

  lemma GoesOn(cuts: Cuts, out: seq<Output>, o: Output)
    requires WithinCapacity(cuts, out) && MayBegin(cuts, out, Some(o.entry.key.user))
    ensures WithinCapacity(cuts, out + [o]) && MayBegin(cuts, out + [o], Some(o.entry.key.user))
  {
    var more := out + [o];
    forall i | 0 <= i < |more| ensures BeginsBelow(cuts, more, i) {
      assert more[..i] == out[..i];
      if i < |out| {
        assert BeginsBelow(cuts, out, i);
      } else {
        assert out[..i] == out;
      }
    }
  }

  /** addKeys: fills one table, starting at `from`. */
  method AddKeys(p: Params, es: seq<Entry>, right: Option<InternalKey>, cuts: Cuts, from: nat, c: Cursor)
    returns (builder: seq<Output>, pos: nat, cursor: Cursor)
    requires Sorted(es) && from < |es| && Behind(c, es, from) && !cuts.capacity([])
    requires right.Some? ==> Before(es[from].key, right.value)
    ensures from < pos <= |es| && Behind(cursor, es, pos)
    ensures FilterFrom(p, c, es, from, right) == builder + FilterFrom(p, cursor, es, pos, right)
    ensures forall o | o in builder :: es[from].key.user <= o.entry.key.user
    ensures pos < |es| ==> forall o | o in builder :: o.entry.key.user < es[pos].key.user
    ensures pos < |es| && right.Some? && !Before(es[pos].key, right.value) ==>
        cursor.lastKey != Some(es[pos].key.user)
    ensures WithinCapacity(cuts, builder)
    ensures pos < |es| && (right.None? || Before(es[pos].key, right.value)) ==> Full(cuts, builder)
  {
    hide FilterUntil, Judge, Emit, WithinCapacity;
    builder, pos, cursor := [], from, c;
    NothingYet(cuts);
    var rangeCheck := 0;
    var tableLeft: Option<InternalKey> := None;
    while pos < |es|
      invariant from <= pos <= |es| && Behind(cursor, es, pos)
      invariant pos == from ==> builder == [] && rangeCheck == 0
      invariant rangeCheck > 0 ==> tableLeft.Some?
      invariant FilterFrom(p, c, es, from, right) == builder + FilterFrom(p, cursor, es, pos, right)
      invariant forall o | o in builder :: es[from].key.user <= o.entry.key.user
      invariant builder != [] ==> cursor.lastKey.Some? && UsersUpTo(builder, cursor.lastKey.value)
      invariant WithinCapacity(cuts, builder) && MayBegin(cuts, builder, cursor.lastKey)
    {
      var e := es[pos];
      if p.dropped(e.key) {
        FilterPasses(p, cursor, es, pos, right);
        pos := pos + 1;
        continue;
      }
      if cursor.skipKey == Some(e.key.user) {
        FilterPasses(p, cursor, es, pos, right);
        pos := pos + 1;
        continue;
      }
      if cursor.lastKey != Some(e.key.user) {
        if right.Some? && !Before(e.key, right.value) {
          break;
        }
        if cuts.capacity(builder) {
          break;
        }
        FilterEnters(p, cursor, es, pos, right);
        cursor := Cursor(Some(e.key.user), None, 0, e.discardEarlier);
        if tableLeft.None? {
          tableLeft := Some(e.key);
        }
        rangeCheck := rangeCheck + 1;
        if rangeCheck % 5000 == 0 && cuts.wide(tableLeft.value, e.key) {
          break;
        }
      } else {
        FilterEnters(p, cursor, es, pos, right);
        cursor := cursor.(skipKey := None);
      }
      ghost var before := builder;
      cursor, builder := AddEntry(p, es, pos, right, cursor, builder);
      if builder != before {
        GoesOn(cuts, before, builder[|before|]);
        assert builder == before + [builder[|before|]];
      }
      pos := pos + 1;
    }
  }

  lemma {:induction false} NothingRight(p: Params, c: Cursor, es: seq<Entry>, right: InternalKey)
    requires forall e | e in es :: !Before(e.key, right) && c.lastKey != Some(e.key.user)
    ensures FilterUntil(p, c, es, Some(right)) == []
    decreases |es|
  {
    if es != [] && Passed(p, c, es[0]) {
      NothingRight(p, c, es[1..], right);
    }
  }

  /** Tables that hold whole user keys, in order. */
  ghost predicate WholeKeys(tables: seq<seq<Output>>) {
    forall i, j, a, b | 0 <= i < j < |tables| && a in tables[i] && b in tables[j] ::
      a.entry.key.user < b.entry.key.user
  }

  /** Every version in the tables is of a user key below `user`. */
  ghost predicate AllBelow(tables: seq<seq<Output>>, user: UserKey) {
    forall i, o | 0 <= i < |tables| && o in tables[i] :: o.entry.key.user < user
  }

  lemma AddTable(tables: seq<seq<Output>>, table: seq<Output>, from: UserKey)
    requires WholeKeys(tables) && AllBelow(tables, from)
    requires forall o | o in table :: from <= o.entry.key.user
    ensures WholeKeys(tables + [table])
    ensures Concat(tables + [table]) == Concat(tables) + table
    ensures forall to | from <= to && (forall o | o in table :: o.entry.key.user < to) :: AllBelow(tables + [table], to)
  {
    assert (tables + [table])[..|tables|] == tables;
  }

  lemma NoTables()
    ensures WholeKeys([]) && Concat([]) == [] && forall user :: AllBelow([], user)
  {
  }

  lemma BelowMore(tables: seq<seq<Output>>, from: UserKey, to: UserKey)
    requires AllBelow(tables, from) && from <= to
    ensures AllBelow(tables, to)
  {
  }

  lemma SortedUsers(es: seq<Entry>, pos: nat)
    requires Sorted(es) && pos < |es|
    ensures forall i | pos <= i < |es| :: es[pos].key.user <= es[i].key.user
  {
  }

  /** Seek(left), or Rewind when the range has no left end. */
  method SeekFrom(es: seq<Entry>, left: Option<InternalKey>) returns (pos: nat)
    ensures pos <= |es|
    ensures left.None? ==> pos == 0
    ensures left.Some? ==> forall i | 0 <= i < pos :: Before(es[i].key, left.value)
    ensures left.Some? && pos < |es| ==> !Before(es[pos].key, left.value)
  {
    pos := 0;
    while left.Some? && pos < |es| && Before(es[pos].key, left.value)
      invariant pos <= |es|
      invariant left.Some? ==> forall i | 0 <= i < pos :: Before(es[i].key, left.value)
      invariant left.None? ==> pos == 0
    {
      pos := pos + 1;
    }
  }

  lemma RangeEnds(p: Params, c: Cursor, es: seq<Entry>, pos: nat, right: InternalKey)
    requires Sorted(es) && pos < |es| && Behind(c, es, pos) && c.lastKey != Some(es[pos].key.user)
    requires !Before(es[pos].key, right)
    ensures FilterFrom(p, c, es, pos, Some(right)) == []
  {
    forall e | e in es[pos..] ensures !Before(e.key, right) && c.lastKey != Some(e.key.user) {
      var i :| pos <= i < |es| && es[i] == e;
    }
    NothingRight(p, c, es[pos..], right);
  }

  /** subcompact: one output table per round of addKeys. However the tables are cut, together
      they hold exactly the filtered range, and no user key is spread over two of them. */
  method Subcompact(p: Params, es: seq<Entry>, start: nat, right: Option<InternalKey>, cuts: Cuts)
    returns (tables: seq<seq<Output>>)
    requires Sorted(es) && start <= |es| && !cuts.capacity([])
    ensures Concat(tables) == FilterFrom(p, START, es, start, right)
    ensures WholeKeys(tables) && [] !in tables
    ensures forall i | 0 <= i < |tables| :: WithinCapacity(cuts, tables[i]) && (i < |tables| - 1 ==> Full(cuts, tables[i]))
  {
    hide FilterUntil, FilterFrom, Judge, Emit, WholeKeys, AllBelow, Concat, Sorted, WithinCapacity, Full;
    tables := [];
    NoTables();
    var pos, cursor := start, START;
    ghost var all := FilterFrom(p, START, es, start, right);
    while pos < |es|
      invariant start <= pos <= |es| && Behind(cursor, es, pos)
      invariant all == Concat(tables) + FilterFrom(p, cursor, es, pos, right)
      invariant WholeKeys(tables) && [] !in tables
      invariant pos < |es| ==> AllBelow(tables, es[pos].key.user)
      invariant pos < |es| && right.Some? && !Before(es[pos].key, right.value) ==>
          cursor.lastKey != Some(es[pos].key.user)
      invariant forall i | 0 <= i < |tables| :: WithinCapacity(cuts, tables[i])
      invariant forall i | 0 <= i < |tables| && (i < |tables| - 1 || (pos < |es| && (right.None? || Before(es[pos].key, right.value)))) ::
          Full(cuts, tables[i])
    {
      if right.Some? && !Before(es[pos].key, right.value) {
        RangeEnds(p, cursor, es, pos, right.value);
        return;
      }
      ghost var from, cut := es[pos].key.user, Concat(tables);
      SortedUsers(es, pos);
      var builder;
      builder, pos, cursor := AddKeys(p, es, right, cuts, pos, cursor);
      Associate(cut, builder, FilterFrom(p, cursor, es, pos, right));
      if builder != [] {
        AddTable(tables, builder, from);
        tables := tables + [builder];
      } else {
        assert cut + builder == cut;
        if pos < |es| {
          BelowMore(tables, from, es[pos].key.user);
        }
      }
    }
    FilterEnds(p, cursor, es, right);
  }
}
