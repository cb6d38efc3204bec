/** The two-tier tree as a state machine: writes, memtable rotation, flushes that write
    tombstones to both tiers, compactions of the cold and the hot tier, eviction from the hot tier
    to the cold one, and entries that expire. Level 1 and up and the ordered hot level are sets of
    tables here; `Levels` keeps them as sorted lists. */
module Lsm {
  import opened Keys
  import opened Compaction
  import opened Snapshots

  datatype Table = Table(id: nat, entries: seq<Entry>) {
    ghost predicate Valid() {
      entries != [] && Sorted(entries)
    }

    function Lo(): UserKey {
      if entries == [] then 0 else entries[0].key.user
    }

    function Hi(): UserKey {
      if entries == [] then 0 else entries[|entries| - 1].key.user
    }
  }

  /** Memtables newest first; L0 and L98 oldest first; `levels[i]` is level i + 1. */
  datatype Tree = Tree(
    mem: seq<set<Entry>>, l0: seq<Table>, levels: seq<set<Table>>, hot: seq<Table>, hotOrd: set<Table>)

  datatype System = System(tree: Tree, written: set<Entry>, discardTs: nat)

  /** The inputs and the outcome of one compaction. */
  datatype Job = Job(merged: seq<Entry>, outcome: set<Table>)

  datatype Event =
    | Put(e: Entry)
    | Rotate
    | Flush(hotChoice: set<Entry>, cold: seq<Table>, warm: seq<Table>)
    | CompactL0(count: nat, base: nat, job: Job)
    | CompactLevel(level: nat, table: Table, base: nat, job: Job)
    | CompactHot(count: nat, job: Job)
    | Evict(table: Table, base: nat, job: Job)
    | Expire(keys: set<InternalKey>)
    | Advance(ts: nat)

  // ---------- Contents ----------

  ghost function Files(tables: set<Table>): set<Entry> {
    set t, e | t in tables && e in t.entries :: e
  }

  ghost function AsSet(tables: seq<Table>): set<Table> {
    set t | t in tables
  }

  ghost function Level(tree: Tree, n: nat): set<Table>
    requires n <= |tree.levels|
  {
    if n == 0 then AsSet(tree.l0) else tree.levels[n - 1]
  }

  ghost function Memory(tree: Tree): set<Entry> {
    set i, e | 0 <= i < |tree.mem| && e in tree.mem[i] :: e
  }

  ghost function ColdTables(tree: Tree): set<Table> {
    set n, t | 0 <= n <= |tree.levels| && t in Level(tree, n) :: t
  }

  ghost function HotTables(tree: Tree): set<Table> {
    AsSet(tree.hot) + tree.hotOrd
  }

  ghost function All(tree: Tree): set<Entry> {
    Memory(tree) + Files(ColdTables(tree)) + Files(HotTables(tree))
  }

  // ---------- Entries that expire ----------

  /** The clock has passed the expiry of the versions in `keys`. */
  function Aged(e: Entry, keys: set<InternalKey>): Entry {
    if e.key in keys then e.(dead := true) else e
  }

  function AgedTable(t: Table, keys: set<InternalKey>): Table {
    Table(t.id, seq(|t.entries|, i requires 0 <= i < |t.entries| => Aged(t.entries[i], keys)))
  }

  ghost function AgedEntries(es: set<Entry>, keys: set<InternalKey>): set<Entry> {
    set e | e in es :: Aged(e, keys)
  }

  ghost function AgedTables(tables: set<Table>, keys: set<InternalKey>): set<Table> {
    set t | t in tables :: AgedTable(t, keys)
  }

  function AgedList(tables: seq<Table>, keys: set<InternalKey>): seq<Table> {
    seq(|tables|, i requires 0 <= i < |tables| => AgedTable(tables[i], keys))
  }

  ghost function AgedTree(tree: Tree, keys: set<InternalKey>): Tree {
    Tree(seq(|tree.mem|, i requires 0 <= i < |tree.mem| => AgedEntries(tree.mem[i], keys)),
         AgedList(tree.l0, keys),
         seq(|tree.levels|, i requires 0 <= i < |tree.levels| => AgedTables(tree.levels[i], keys)),
         AgedList(tree.hot, keys), AgedTables(tree.hotOrd, keys))
  }

  // ---------- What a compaction takes and drops ----------

  /** The key range of `t` meets the range from the smallest to the biggest key of `tables`. */
  ghost predicate TouchesRange(t: Table, tables: set<Table>) {
    && t.entries != []
    && (exists a :: a in tables && a.entries != [] && a.Lo() <= t.Hi())
    && (exists b :: b in tables && b.entries != [] && t.Lo() <= b.Hi())
  }

  /** overlappingTables for the key range of `top`. */
  ghost function Bottom(next: set<Table>, top: set<Table>): set<Table> {
    set t | t in next && TouchesRange(t, top)
  }

  /** checkOverlap: a cold compaction looks below its target, and at the hot tier when it starts
      above the base level. */
  ghost predicate ColdOverlap(tree: Tree, inputs: set<Table>, from: nat, next: nat, base: nat)
    requires next <= |tree.levels|
  {
    || (exists n, t :: next < n <= |tree.levels| && t in Level(tree, n) && TouchesRange(t, inputs))
    || (from < base && exists t :: t in HotTables(tree) && TouchesRange(t, inputs))
  }

  /** What a compaction of the hot tier or an eviction from it looks at. */
  ghost predicate HotOverlap(tree: Tree, inputs: set<Table>) {
    exists t :: t in ColdTables(tree) && TouchesRange(t, inputs)
  }

  ghost function Keep(discardTs: nat, versionsToKeep: nat, overlap: bool): Params {
    Params(discardTs, versionsToKeep, overlap, _ => false)
  }

  /** New tables hold whole user keys. */
  ghost predicate Separate(tables: set<Table>) {
    && (forall t | t in tables :: t.Valid())
    && (forall a, b | a in tables && b in tables && a != b :: a.Hi() < b.Lo() || b.Hi() < a.Lo())
  }

  /** The merged inputs went through the filter, and the outcome was cut into tables. */
  ghost predicate Compacts(s: System, inputs: set<Table>, overlap: bool, job: Job) {
    && Sorted(job.merged) && Set(job.merged) == Files(inputs)
    && Separate(job.outcome)
    && exists keep: nat :: Files(job.outcome) == Contents(Filter(Keep(s.discardTs, keep, overlap), job.merged))
  }

  // ---------- Steps ----------

  ghost predicate Holds(tables: seq<Table>, es: set<Entry>) {
    && |tables| <= 1 && (tables == [] <==> es == {})
    && (tables != [] ==> tables[0].Valid() && Set(tables[0].entries) == es)
  }

  ghost function ColdPart(m: set<Entry>, hotChoice: set<Entry>): set<Entry> {
    set e | e in m && (e.dead || e !in hotChoice)
  }

  ghost function HotPart(m: set<Entry>, hotChoice: set<Entry>): set<Entry> {
    set e | e in m && (e.dead || e in hotChoice)
  }

  ghost function L0Inputs(tree: Tree, count: nat, base: nat): set<Table>
    requires count <= |tree.l0| && base <= |tree.levels|
  {
    AsSet(tree.l0[..count]) + Bottom(Level(tree, base), AsSet(tree.l0[..count]))
  }

  ghost predicate Enabled(s: System, e: Event) {
    var tree := s.tree;
    match e
    case Put(x) =>
      x.key.ts >= 1 && forall h | h in s.written && h.key.user == x.key.user :: h.key.ts < x.key.ts
    case Rotate => true
    case Flush(hotChoice, cold, warm) =>
      |tree.mem| >= 2 && var m := tree.mem[|tree.mem| - 1];
      Holds(cold, ColdPart(m, hotChoice)) && Holds(warm, HotPart(m, hotChoice))
    case CompactL0(count, base, job) =>
      && 1 <= count <= |tree.l0| && 1 <= base <= |tree.levels|
      && var inputs := L0Inputs(tree, count, base);
         Compacts(s, inputs, ColdOverlap(tree, inputs, 0, base, base), job)
    case CompactLevel(n, t, base, job) =>
      && 1 <= n < |tree.levels| && t in Level(tree, n)
      && var inputs := {t} + Bottom(Level(tree, n + 1), {t});
         Compacts(s, inputs, ColdOverlap(tree, inputs, n, n + 1, base), job)
    case CompactHot(count, job) =>
      && 1 <= count <= |tree.hot|
      && var inputs := AsSet(tree.hot[..count]) + Bottom(tree.hotOrd, AsSet(tree.hot[..count]));
         Compacts(s, inputs, HotOverlap(tree, inputs), job)
    case Evict(t, base, job) =>
      && t in tree.hotOrd && 1 <= base <= |tree.levels|
      && var inputs := {t} + Bottom(Level(tree, base), {t});
         Compacts(s, inputs, HotOverlap(tree, inputs), job)
    case Expire(_) => true
    case Advance(ts) => s.discardTs <= ts
  }

  ghost function SetLevel(tree: Tree, n: nat, tables: set<Table>): Tree
    requires 1 <= n <= |tree.levels|
  {
    tree.(levels := tree.levels[n - 1 := tables])
  }

  ghost function Step(s: System, e: Event): System
    requires Enabled(s, e)
  {
    var tree := s.tree;
    match e
    case Put(x) =>
      var mem := if tree.mem == [] then [{x}] else tree.mem[0 := tree.mem[0] + {x}];
      s.(tree := tree.(mem := mem), written := s.written + {x})
    case Rotate => s.(tree := tree.(mem := [{}] + tree.mem))
    case Flush(_, cold, warm) =>
      s.(tree := tree.(mem := tree.mem[..|tree.mem| - 1], l0 := tree.l0 + cold, hot := tree.hot + warm))
    case CompactL0(count, base, job) =>
      var bottom := Bottom(Level(tree, base), AsSet(tree.l0[..count]));
      s.(tree := SetLevel(tree, base, Level(tree, base) - bottom + job.outcome).(l0 := tree.l0[count..]))
    case CompactLevel(n, t, _, job) =>
      var bottom := Bottom(Level(tree, n + 1), {t});
      s.(tree := SetLevel(SetLevel(tree, n + 1, Level(tree, n + 1) - bottom + job.outcome), n, Level(tree, n) - {t}))
    case CompactHot(count, job) =>
      var bottom := Bottom(tree.hotOrd, AsSet(tree.hot[..count]));
      s.(tree := tree.(hot := tree.hot[count..], hotOrd := tree.hotOrd - bottom + job.outcome))
    case Evict(t, base, job) =>
      var bottom := Bottom(Level(tree, base), {t});
      s.(tree := SetLevel(tree, base, Level(tree, base) - bottom + job.outcome).(hotOrd := tree.hotOrd - {t}))
    case Expire(keys) => s.(tree := AgedTree(tree, keys), written := AgedEntries(s.written, keys))
    case Advance(ts) => s.(discardTs := ts)
  }

  function Empty(maxLevels: nat): System {
    System(Tree([{}], [], seq(maxLevels, _ => {}), [], {}), {}, 0)
  }

  ghost predicate IsRun(maxLevels: nat, events: seq<Event>)
    decreases |events|, 0
  {
    events != [] ==>
      && IsRun(maxLevels, events[..|events| - 1])
      && Enabled(After(maxLevels, events[..|events| - 1]), events[|events| - 1])
  }

  ghost function After(maxLevels: nat, events: seq<Event>): System
    requires IsRun(maxLevels, events)
    decreases |events|, 1
  {
    if events == [] then Empty(maxLevels)
    else Step(After(maxLevels, events[..|events| - 1]), events[|events| - 1])
  }
}
