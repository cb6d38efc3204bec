/** compaction.go and the fill functions of levels.go: which tables a compaction takes, and the
    table of key ranges that lets several compactions run at once. */
module Admission {
  import opened Keys
  import opened Lsm
  import opened Levels
  import opened Wrappers

  // ---------- Key ranges ----------

  /** A missing end stands for an empty byte slice. */
  datatype KeyRange = KeyRange(left: Option<InternalKey>, right: Option<InternalKey>, inf: bool) {
    predicate IsEmpty() {
      left.None? && right.None? && !inf
    }

    predicate Valid() {
      left.None? <==> right.None?
    }

    /** extend. */
    function Extend(kr: KeyRange): KeyRange {
      if kr.IsEmpty() then this
      else
        var r := if IsEmpty() then kr else this;
        var l := if r.left.None? || (kr.left.Some? && Before(kr.left.value, r.left.value)) then kr.left else r.left;
        var h := if r.right.None? || (kr.right.Some? && Before(r.right.value, kr.right.value)) then kr.right else r.right;
        KeyRange(l, h, r.inf || kr.inf)
    }

    predicate OverlapsWith(dst: KeyRange) {
      if IsEmpty() then true
      else if dst.IsEmpty() then false
      else if inf || dst.inf then true
      else if left.None? || right.None? || dst.left.None? || dst.right.None? then false
      else !Before(dst.right.value, left.value) && !Before(right.value, dst.left.value)
    }
  }

  const EMPTY := KeyRange(None, None, false)

  /** All versions of the user keys from `lo` to `hi`. */
  function Span(lo: UserKey, hi: UserKey): KeyRange {
    KeyRange(Some(InternalKey(lo, MAX_TS)), Some(InternalKey(hi, 0)), false)
  }

  lemma SpansOverlap(a: UserKey, b: UserKey, c: UserKey, d: UserKey)
    ensures Span(a, b).OverlapsWith(Span(c, d)) <==> a <= d && c <= b
    ensures Span(a, b).Extend(Span(c, d)) == Span(if c < a then c else a, if b < d then d else b)
  {
  }

  // ---------- The status table ----------

  /** A compaction as planned: `top` at `source`, `bot` at `target`, the ranges it registers, and the size
      that it takes off the source level. */
  datatype CompactDef = CompactDef(
    source: nat, target: nat, top: seq<Table>, bot: seq<Table>, thisRange: KeyRange, nextRange: KeyRange, thisSize: nat)

  datatype Status = Status(ranges: map<nat, seq<KeyRange>>, tables: set<nat>, delSize: map<nat, int>)

  function SizeAt(delSize: map<nat, int>, level: nat): int {
    if level in delSize then delSize[level] else 0
  }

  function RangesOf(ranges: map<nat, seq<KeyRange>>, level: nat): seq<KeyRange> {
    if level in ranges then ranges[level] else []
  }

  predicate Hits(ranges: seq<KeyRange>, dst: KeyRange) {
    exists i :: 0 <= i < |ranges| && ranges[i].OverlapsWith(dst)
  }

  function Without(ranges: seq<KeyRange>, dst: KeyRange): seq<KeyRange> {
    if ranges == [] then []
    else
      var front, last := Without(ranges[..|ranges| - 1], dst), ranges[|ranges| - 1];
      if last == dst then front else front + [last]
  }

  predicate Admits(st: Status, cd: CompactDef) {
    !Hits(RangesOf(st.ranges, cd.source), cd.thisRange) && !Hits(RangesOf(st.ranges, cd.target), cd.nextRange)
  }

  function Register(ranges: map<nat, seq<KeyRange>>, level: nat, r: KeyRange): map<nat, seq<KeyRange>> {
    ranges[level := RangesOf(ranges, level) + [r]]
  }

  function Added(st: Status, cd: CompactDef): Status {
    Status(Register(Register(st.ranges, cd.source, cd.thisRange), cd.target, cd.nextRange),
           st.tables + Ids(cd.top + cd.bot),
           st.delSize[cd.source := SizeAt(st.delSize, cd.source) + cd.thisSize])
  }

  function Deleted(st: Status, cd: CompactDef): Status {
    var once := st.ranges[cd.source := Without(RangesOf(st.ranges, cd.source), cd.thisRange)];
    var both :=
      if cd.source != cd.target && !cd.nextRange.IsEmpty() then
        once[cd.target := Without(RangesOf(once, cd.target), cd.nextRange)]
      else once;
    Status(both, st.tables - Ids(cd.top + cd.bot), st.delSize[cd.source := SizeAt(st.delSize, cd.source) - cd.thisSize])
  }

  /** Neither the lookup of the ranges nor that of the tables fails. */
  predicate Found(st: Status, cd: CompactDef) {
    && cd.thisRange in RangesOf(st.ranges, cd.source)
    && (cd.source != cd.target && !cd.nextRange.IsEmpty() ==> cd.nextRange in RangesOf(st.ranges, cd.target))
    && Ids(cd.top + cd.bot) <= st.tables && Distinct(cd.top + cd.bot)
  }

  predicate Distinct(tables: seq<Table>) {
    forall i, j | 0 <= i < j < |tables| :: tables[i].id != tables[j].id
  }

  lemma OneMoreId(all: seq<Table>, i: nat)
    requires i < |all|
    ensures Ids(all[..i + 1]) == Ids(all[..i]) + {all[i].id}
    ensures Distinct(all[..i + 1]) <==> Distinct(all[..i]) && all[i].id !in Ids(all[..i])
  {
    assert all[..i + 1] == all[..i] + [all[i]];
    if Distinct(all[..i + 1]) {
      forall k | 0 <= k < i ensures all[..i][k].id != all[i].id {
        assert all[..i + 1][k].id != all[..i + 1][i].id;
      }
      assert Distinct(all[..i]) by {
        forall a, b | 0 <= a < b < i ensures all[..i][a].id != all[..i][b].id {
          assert all[..i + 1][a].id != all[..i + 1][b].id;
        }
      }
    }
    if Distinct(all[..i]) && all[i].id !in Ids(all[..i]) {
      var now := all[..i + 1];
      forall a, b | 0 <= a < b < |now| ensures now[a].id != now[b].id {
        assert all[..i][a] in all[..i];
        assert b < i ==> all[..i][a].id != all[..i][b].id;
      }
    }
  }

  class CompactStatus {
    var ranges: map<nat, seq<KeyRange>>
    var delSize: map<nat, int>
    var tables: set<nat>

    constructor ()
      ensures Abs() == Status(map[], {}, map[])
    {
      ranges, delSize, tables := map[], map[], {};
    }

    function Abs(): Status
      reads this
    {
      Status(ranges, tables, delSize)
    }

    method OverlapsWith(level: nat, dst: KeyRange) returns (hit: bool)
      ensures hit <==> Hits(RangesOf(ranges, level), dst)
    {
      var list := RangesOf(ranges, level);
      for i := 0 to |list|
        invariant forall k | 0 <= k < i :: !list[k].OverlapsWith(dst)
      {
        if list[i].OverlapsWith(dst) {
          return true;
        }
      }
      return false;
    }

    method Remove(level: nat, dst: KeyRange) returns (found: bool)
      modifies this`ranges
      ensures ranges == old(ranges)[level := Without(RangesOf(old(ranges), level), dst)]
      ensures found <==> dst in RangesOf(old(ranges), level)
    {
      var list := RangesOf(ranges, level);
      var final: seq<KeyRange> := [];
      found := false;
      for i := 0 to |list|
        invariant final == Without(list[..i], dst) && (found <==> dst in list[..i])
      {
        assert list[..i + 1][..i] == list[..i];
        if list[i] != dst {
          final := final + [list[i]];
        } else {
          found := true;
        }
      }
      assert list[..|list|] == list;
      ranges := ranges[level := final];
    }

    method MarkTables(all: seq<Table>)
      modifies this`tables
      ensures tables == old(tables) + Ids(all)
    {
      for i := 0 to |all|
        invariant tables == old(tables) + Ids(all[..i])
      {
        assert all[..i + 1] == all[..i] + [all[i]];
        tables := tables + {all[i].id};
      }
      assert all[..|all|] == all;
    }

    /** A table that is not there, or no longer, fails the assertion in delete. */
    method UnmarkTables(all: seq<Table>) returns (present: bool)
      modifies this`tables
      ensures tables == old(tables) - Ids(all)
      ensures present <==> Ids(all) <= old(tables) && Distinct(all)
    {
      present := true;
      for i := 0 to |all|
        invariant tables == old(tables) - Ids(all[..i])
        invariant present <==> Ids(all[..i]) <= old(tables) && Distinct(all[..i])
      {
        OneMoreId(all, i);
        present := present && all[i].id in tables;
        tables := tables - {all[i].id};
      }
      assert all[..|all|] == all;
    }

    method CompareAndAdd(cd: CompactDef) returns (ok: bool)
      modifies this
      ensures ok <==> Admits(old(Abs()), cd)
      ensures Abs() == if ok then Added(old(Abs()), cd) else old(Abs())
    {
      var hit := OverlapsWith(cd.source, cd.thisRange);
      if hit {
        return false;
      }
      hit := OverlapsWith(cd.target, cd.nextRange);
      if hit {
        return false;
      }
      ranges := Register(ranges, cd.source, cd.thisRange);
      ranges := Register(ranges, cd.target, cd.nextRange);
      delSize := delSize[cd.source := SizeAt(delSize, cd.source) + cd.thisSize];
      MarkTables(cd.top + cd.bot);
      return true;
    }

    /** delete: where a range or a table is not found the process stops. */
    method Delete(cd: CompactDef) returns (found: bool)
      modifies this
      ensures found <==> Found(old(Abs()), cd)
      ensures Abs() == Deleted(old(Abs()), cd)
    {
      delSize := delSize[cd.source := SizeAt(delSize, cd.source) - cd.thisSize];
      found := Remove(cd.source, cd.thisRange);
      if cd.source != cd.target && !cd.nextRange.IsEmpty() {
        var foundNext := Remove(cd.target, cd.nextRange);
        found := foundNext && found;
      }
      var present := UnmarkTables(cd.top + cd.bot);
      found := present && found;
    }
  }

  // ---------- Planning a compaction ----------

  function From(r: KeyRange): UserKey {
    if r.left.Some? then r.left.value.user else 0
  }

  function To(r: KeyRange): UserKey {
    if r.right.Some? then r.right.value.user else 0
  }

  /** The range covers the tables, and its ends are ends of some of them. */
  ghost predicate Covers(r: KeyRange, tables: seq<Table>) {
    && r == Span(From(r), To(r)) && From(r) <= To(r)
    && (forall t | t in tables :: From(r) <= t.Lo() && t.Hi() <= To(r))
    && (exists t :: t in tables && t.Lo() == From(r)) && (exists t :: t in tables && t.Hi() == To(r))
  }

  predicate Meets(t: Table, r: KeyRange) {
    t.Lo() <= To(r) && From(r) <= t.Hi()
  }

  /** What the fill functions set up for the tables of the target level. */
  ghost predicate Planned(cd: CompactDef, targets: set<Table>) {
    && cd.top != [] && AllGood(cd.top) && Covers(cd.thisRange, cd.top)
    && (forall t :: t in cd.bot <==> t in targets && Meets(t, cd.thisRange))
    && if cd.bot == [] then cd.nextRange == cd.thisRange else Covers(cd.nextRange, cd.bot)
  }

  /** getKeyRange. */
  method KeyRangeOf(tables: seq<Table>) returns (r: KeyRange)
    requires tables != [] && AllGood(tables)
    ensures Covers(r, tables)
  {
    var lo, hi := GetKeyRange(tables);
    LoHi(tables[0]);
    assert tables[0] in tables;
    r := Span(lo, hi);
  }

  /** What extending an empty range by each table in turn gives. */
  function Hull(tables: seq<Table>): KeyRange {
    if tables == [] then EMPTY else Hull(tables[..|tables| - 1]).Extend(Range(tables[|tables| - 1]))
  }

  function Range(t: Table): KeyRange {
    Span(t.Lo(), t.Hi())
  }

  /** Each table meets the range of those before it. */
  ghost predicate Connected(tables: seq<Table>) {
    forall i | 0 < i < |tables| :: Hull(tables[..i]).OverlapsWith(Range(tables[i]))
  }

  lemma ConnectMore(tables: seq<Table>, t: Table)
    requires Connected(tables) && Hull(tables).OverlapsWith(Range(t))
    ensures Connected(tables + [t]) && Hull(tables + [t]) == Hull(tables).Extend(Range(t))
  {
    hide Hull, KeyRange.OverlapsWith, KeyRange.Extend;
    var more := tables + [t];
    assert more[..|tables|] == tables;
    forall i | 0 < i < |more| ensures Hull(more[..i]).OverlapsWith(Range(more[i])) {
      assert i < |tables| ==> more[..i] == tables[..i];
    }
    HullMore(tables, t);
  }

  lemma HullMore(tables: seq<Table>, t: Table)
    ensures Hull(tables + [t]) == Hull(tables).Extend(Range(t))
  {
    assert (tables + [t])[..|tables|] == tables;
  }

  /** The tables of level 0 or L98 to compact together: oldest first, as long as each meets the
      range so far; or all of them, when prefixes are dropped. */
  ghost predicate Taken(top: seq<Table>, tables: seq<Table>, everything: bool) {
    if everything then top == tables
    else
      && top != [] && top <= tables && Connected(top)
      && (|top| < |tables| ==> !Hull(top).OverlapsWith(Range(tables[|top|])))
  }

  method PickTop(tables: seq<Table>) returns (out: seq<Table>)
    requires tables != [] && AllGood(tables)
    ensures out != [] && Taken(out, tables, false)
  {
    out := [];
    var kr := EMPTY;
    for i := 0 to |tables|
      invariant out == tables[..i] && kr == Hull(out) && Connected(out)
    {
      var dkr := Range(tables[i]);
      if !kr.OverlapsWith(dkr) {
        return;
      }
      ConnectMore(out, tables[i]);
      assert tables[..i + 1] == out + [tables[i]];
      out := out + [tables[i]];
      kr := kr.Extend(dkr);
    }
  }

  lemma Stretch(tables: seq<Table>, left: nat, right: nat, r: KeyRange)
    requires left <= right <= |tables|
    requires forall i | 0 <= i < |tables| :: left <= i < right <==> tables[i].Lo() <= To(r) && From(r) <= tables[i].Hi()
    ensures AllGood(tables) ==> AllGood(tables[left..right])
    ensures forall t :: t in tables[left..right] <==> t in tables && Meets(t, r)
  {
    var bot := tables[left..right];
    forall t | t in tables && Meets(t, r) ensures t in bot {
      var i :| 0 <= i < |tables| && tables[i] == t;
      assert bot[i - left] == t;
    }
    forall t | t in bot ensures t in tables && Meets(t, r) {
      var k :| 0 <= k < |bot| && bot[k] == t;
      assert tables[left + k] == t;
    }
  }

  /** The rest of every fill function: the key range of the top, the tables of the target that
      meet it, and the range those take. */
  method Plan(source: nat, top: seq<Table>, target: LevelHandler, thisSize: nat) returns (cd: CompactDef)
    requires top != [] && AllGood(top) && target.Valid() && !target.Unordered()
    ensures Planned(cd, AsSet(target.tables))
    ensures cd.source == source && cd.target == target.level && cd.top == top && cd.thisSize == thisSize
  {
    hide Covers;
    var thisRange := KeyRangeOf(top);
    var left, right := target.OverlappingTables(From(thisRange), To(thisRange));
    Stretch(target.tables, left, right, thisRange);
    var bot := target.tables[left..right];
    var nextRange := thisRange;
    if bot != [] {
      nextRange := KeyRangeOf(bot);
    }
    cd := CompactDef(source, target.level, top, bot, thisRange, nextRange, thisSize);
  }

  /** fillTablesL98, and fillTablesL0ToLbase behind its gates: there is one plan, and it is registered
      exactly if it is admitted. */
  method FillFromUnordered(source: LevelHandler, target: LevelHandler, status: CompactStatus, everything: bool)
    returns (cd: Option<CompactDef>, ghost plan: CompactDef)
    requires source.Valid() && target.Valid() && !target.Unordered()
    modifies status
    ensures source.tables == [] ==> cd == None && status.Abs() == old(status.Abs())
    ensures source.tables != [] ==>
        && plan.source == source.level && plan.target == target.level && plan.thisSize == 0
        && Planned(plan, AsSet(target.tables)) && Taken(plan.top, source.tables, everything)
        && cd == (if Admits(old(status.Abs()), plan) then Some(plan) else None)
        && status.Abs() == if cd.Some? then Added(old(status.Abs()), plan) else old(status.Abs())
  {
    plan := CompactDef(0, 0, [], [], EMPTY, EMPTY, 0);
    if source.tables == [] {
      return None, plan;
    }
    var top := source.tables;
    if !everything {
      top := PickTop(source.tables);
    }
    var planned := Plan(source.level, top, target, 0);
    plan := planned;
    var ok := status.CompareAndAdd(planned);
    cd := if ok then Some(planned) else None;
  }

  /** fillTablesL0ToLbase: not for an adjusted score below 1, unless it is 0, and not while the oldest
      table is smaller than four fifths of the file size. */
  method FillL0ToLbase(source: LevelHandler, target: LevelHandler, status: CompactStatus, everything: bool,
                       adjusted: real, fileSize: nat, size: Table -> int)
    returns (cd: Option<CompactDef>, ghost plan: CompactDef)
    requires source.Valid() && target.Valid() && !target.Unordered()
    modifies status
    ensures source.tables == [] || 0.0 < adjusted < 1.0 || size(source.tables[0]) < (0.8 * fileSize as real).Floor ==>
        cd == None && status.Abs() == old(status.Abs())
    ensures source.tables != [] && !(0.0 < adjusted < 1.0) && size(source.tables[0]) >= (0.8 * fileSize as real).Floor ==>
        && plan.source == source.level && plan.target == target.level && plan.thisSize == 0
        && Planned(plan, AsSet(target.tables)) && Taken(plan.top, source.tables, everything)
        && cd == (if Admits(old(status.Abs()), plan) then Some(plan) else None)
        && status.Abs() == if cd.Some? then Added(old(status.Abs()), plan) else old(status.Abs())
  {
    hide Planned, Taken;
    plan := CompactDef(0, 0, [], [], EMPTY, EMPTY, 0);
    if adjusted > 0.0 && adjusted < 1.0 {
      return None, plan;
    }
    if source.tables == [] {
      return None, plan;
    }
    var targetSize := (0.8 * fileSize as real).Floor;
    if size(source.tables[0]) < targetSize {
      return None, plan;
    }
    cd, plan := FillFromUnordered(source, target, status, everything);
  }

  /** fillTables: the first table, in the order of the heuristic, whose compaction is admitted. Each
      table has one plan; `plans` are those of the tables that were tried. */
  method FillFromOrdered(candidates: seq<Table>, source: nat, target: LevelHandler, status: CompactStatus, size: Table -> nat)
    returns (cd: Option<CompactDef>, ghost plans: seq<CompactDef>)
    requires AllGood(candidates) && target.Valid() && !target.Unordered()
    modifies status
    ensures |plans| <= |candidates| && forall i | 0 <= i < |plans| ::
        && plans[i].source == source && plans[i].target == target.level && plans[i].top == [candidates[i]]
        && plans[i].thisSize == size(candidates[i])
        && Planned(plans[i], AsSet(target.tables))
    ensures cd.None? ==> |plans| == |candidates| && forall i | 0 <= i < |plans| :: !Admits(old(status.Abs()), plans[i])
    ensures cd.None? ==> status.Abs() == old(status.Abs())
    ensures cd.Some? ==>
        && plans != [] && cd.value == plans[|plans| - 1]
        && Admits(old(status.Abs()), cd.value) && status.Abs() == Added(old(status.Abs()), cd.value)
        && forall i | 0 <= i < |plans| - 1 :: !Admits(old(status.Abs()), plans[i])
  {
    hide Planned;
    plans := [];
    for i := 0 to |candidates|
      invariant status.Abs() == old(status.Abs()) && |plans| == i
      invariant forall k | 0 <= k < i ::
          && plans[k].source == source && plans[k].target == target.level && plans[k].top == [candidates[k]]
          && plans[k].thisSize == size(candidates[k])
          && Planned(plans[k], AsSet(target.tables)) && !Admits(old(status.Abs()), plans[k])
    {
      var plan := Plan(source, [candidates[i]], target, size(candidates[i]));
      plans := plans + [plan];
      var hit := status.OverlapsWith(source, plan.thisRange);
      if hit {
        continue;
      }
      if plan.bot != [] {
        hit := status.OverlapsWith(target.level, plan.nextRange);
        if hit {
          continue;
        }
      }
      var ok := status.CompareAndAdd(plan);
      if ok {
        return Some(plan), plans;
      }
    }
    return None, plans;
  }
}
