/** level_handler.go and the point lookup of db.go and levels.go: a level's table list, the
    binary searches over it, and the search for a key through every tier. */
module Levels {
  import opened Keys
  import opened Compaction
  import opened Snapshots
  import opened Lsm
  import opened Wrappers

  // ---------- Sorted levels ----------

  ghost predicate AllGood(tables: seq<Table>) {
    forall i | 0 <= i < |tables| :: tables[i].Valid()
  }

  /** Level 1 and up: tables in key order, no user key in two of them. */
  ghost predicate LevelSorted(tables: seq<Table>) {
    && AllGood(tables)
    && forall i, j | 0 <= i < j < |tables| :: tables[i].Hi() < tables[j].Lo()
  }

  /** sort.Search: the first index at which a monotone condition holds. */
  method Search(n: nat, f: nat -> bool) returns (i: nat)
    requires forall a, b | 0 <= a <= b < n && f(a) :: f(b)
    ensures i <= n
    ensures forall a | 0 <= a < n :: f(a) <==> i <= a
  {
    i := 0;
    var j := n;
    while i < j
      invariant i <= j <= n
      invariant forall a | 0 <= a < i :: !f(a)
      invariant forall a | j <= a < n :: f(a)
    {
      var h := (i + j) / 2;
      if !f(h) {
        i := h + 1;
      } else {
        j := h;
      }
    }
  }

  /** getKeyRange, at user-key granularity. */
  method GetKeyRange(tables: seq<Table>) returns (lo: UserKey, hi: UserKey)
    requires tables != [] && AllGood(tables)
    ensures forall t | t in tables :: lo <= t.Lo() && t.Hi() <= hi
    ensures (exists t :: t in tables && t.Lo() == lo) && (exists t :: t in tables && t.Hi() == hi)
    ensures forall x: Table | x.entries != [] ::
        TouchesRange(x, AsSet(tables)) <==> lo <= x.Hi() && x.Lo() <= hi
  {
    assert tables[0] in tables;
    lo, hi := tables[0].Lo(), tables[0].Hi();
    for i := 1 to |tables|
      invariant forall k | 0 <= k < i :: lo <= tables[k].Lo() && tables[k].Hi() <= hi
      invariant (exists k :: 0 <= k < i && tables[k].Lo() == lo) && exists k :: 0 <= k < i && tables[k].Hi() == hi
    {
      if tables[i].Lo() < lo {
        lo := tables[i].Lo();
      }
      if tables[i].Hi() > hi {
        hi := tables[i].Hi();
      }
    }
    ghost var a :| 0 <= a < |tables| && tables[a].Lo() == lo;
    ghost var b :| 0 <= b < |tables| && tables[b].Hi() == hi;
    assert tables[a] in tables && tables[b] in tables;
    forall x: Table | x.entries != [] && lo <= x.Hi() && x.Lo() <= hi ensures TouchesRange(x, AsSet(tables)) {
      assert tables[a] in AsSet(tables) && tables[b] in AsSet(tables);
    }
  }

  /** The first entry at or after `key`, or nothing when all are before it. */
  ghost predicate FirstFrom(es: seq<Entry>, key: InternalKey, found: Option<Entry>) {
    if found.None? then forall e | e in es :: Before(e.key, key)
    else
      && found.value in es && !Before(found.value.key, key)
      && forall e | e in es && !Before(e.key, key) :: e == found.value || Before(found.value.key, e.key)
  }

  /** Seek of a table iterator. */
  method Seek(es: seq<Entry>, key: InternalKey) returns (found: Option<Entry>)
    requires Sorted(es)
    ensures FirstFrom(es, key, found)
  {
    var atOrAfter := (i: nat) => if i < |es| then !Before(es[i].key, key) else true;
    var i := Search(|es|, atOrAfter);
    forall k | 0 <= k < |es| ensures !Before(es[k].key, key) <==> i <= k {
      assert atOrAfter(k) == !Before(es[k].key, key);
    }
    if i == |es| {
      return None;
    }
    return Some(es[i]);
  }

  // ---------- One level ----------

  /** The newest version at or below `ts`, or nothing when there is none. */
  ghost predicate Finds(s: set<Entry>, user: UserKey, ts: nat, found: Option<Entry>) {
    if found.Some? then Newest(s, user, ts, found.value) else Absent(s, user, ts)
  }

  ghost predicate Stamped(s: set<Entry>) {
    forall e | e in s :: e.key.ts >= 1
  }

  function Version(found: Option<Entry>): nat {
    if found.Some? then found.value.key.ts else 0
  }

  /** What a seek for (user, ts) landed on, when it is a version of the same user key. */
  function SameUser(found: Option<Entry>, user: UserKey): Option<Entry> {
    if found.Some? && found.value.key.user == user then found else None
  }

  lemma SeekFinds(es: seq<Entry>, user: UserKey, ts: nat, found: Option<Entry>)
    requires FirstFrom(es, InternalKey(user, ts), found)
    ensures Finds(Set(es), user, ts, SameUser(found, user))
  {
  }

  lemma FindsUnion(a: set<Entry>, b: set<Entry>, user: UserKey, ts: nat, x: Option<Entry>, y: Option<Entry>)
    requires Finds(a, user, ts, x) && Finds(b, user, ts, y) && Stamped(a) && Stamped(b)
    ensures Finds(a + b, user, ts, if Version(x) < Version(y) then y else x)
  {
  }

  function Reverse(tables: seq<Table>): (r: seq<Table>)
    ensures |r| == |tables|
  {
    if tables == [] then [] else Reverse(tables[1..]) + [tables[0]]
  }

  lemma {:induction false} ReverseAt(tables: seq<Table>, i: nat)
    requires i < |tables|
    ensures Reverse(tables)[i] == tables[|tables| - 1 - i]
  {
    if i < |tables| - 1 {
      ReverseAt(tables[1..], i);
    }
  }

  lemma ReverseHasAll(tables: seq<Table>)
    ensures forall t :: t in Reverse(tables) <==> t in tables
  {
    forall t | t in Reverse(tables) ensures t in tables {
      var i :| 0 <= i < |tables| && Reverse(tables)[i] == t;
      ReverseAt(tables, i);
    }
    forall t | t in tables ensures t in Reverse(tables) {
      var i :| 0 <= i < |tables| && tables[i] == t;
      ReverseAt(tables, |tables| - 1 - i);
    }
  }

  function Biggest(t: Table): InternalKey {
    if t.entries == [] then InternalKey(0, 0) else t.entries[|t.entries| - 1].key
  }

  /** The biggest keys of a sorted level ascend. */
  lemma BiggestAscend(tables: seq<Table>, key: InternalKey)
    requires LevelSorted(tables)
    ensures forall a, b | 0 <= a <= b < |tables| && !Before(Biggest(tables[a]), key) :: !Before(Biggest(tables[b]), key)
  {
    forall a, b | 0 <= a < b < |tables| ensures Before(Biggest(tables[a]), Biggest(tables[b])) {
      LoHi(tables[b]);
    }
  }

  lemma LoHi(t: Table)
    requires t.Valid()
    ensures t.Lo() <= t.Hi()
    ensures forall e | e in t.entries :: t.Lo() <= e.key.user <= t.Hi() && !Before(Biggest(t), e.key)
  {
    assert t.entries[0] in t.entries;
    forall e | e in t.entries ensures t.Lo() <= e.key.user <= t.Hi() && !Before(Biggest(t), e.key) {
      var i :| 0 <= i < |t.entries| && t.entries[i] == e;
      assert 0 < i ==> Before(t.entries[0].key, e.key);
      assert i < |t.entries| - 1 ==> Before(e.key, t.entries[|t.entries| - 1].key);
    }
  }

  /** In a sorted level only the first table that ends at or after the key can hold a version
      of it that the reader may see. */
  lemma OnlyTableForKey(tables: seq<Table>, user: UserKey, ts: nat, idx: nat, i: nat, e: Entry)
    requires LevelSorted(tables) && idx <= |tables|
    requires forall a | 0 <= a < |tables| :: !Before(Biggest(tables[a]), InternalKey(user, ts)) <==> idx <= a
    requires i < |tables| && e in tables[i].entries && e.key.user == user && e.key.ts <= ts
    ensures i == idx
  {
    LoHi(tables[i]);
    var first := tables[idx];
    assert !Before(Biggest(first), InternalKey(user, ts));
  }

  // ---------- Changing a level ----------

  function Ids(tables: seq<Table>): (ids: set<nat>)
    ensures forall n :: n in ids <==> exists t :: t in tables && t.id == n
  {
    set t | t in tables :: t.id
  }

  /** The tables whose id is not in `gone`, in order. */
  function Kept(tables: seq<Table>, gone: set<nat>): (kept: seq<Table>)
    ensures forall t :: t in kept <==> t in tables && t.id !in gone
  {
    if tables == [] then []
    else
      var front := Kept(tables[..|tables| - 1], gone);
      var last := tables[|tables| - 1];
      assert tables == tables[..|tables| - 1] + [last];
      if last.id in gone then front else front + [last]
  }

  predicate Disjoint(a: Table, b: Table) {
    a.Hi() < b.Lo() || b.Hi() < a.Lo()
  }

  /** No user key lies in the range of two of the tables. */
  predicate Apart(tables: seq<Table>) {
    forall i, j | 0 <= i < |tables| && 0 <= j < |tables| && i != j :: Disjoint(tables[i], tables[j])
  }

  predicate InOrder(byId: bool, a: Table, b: Table) {
    if byId then a.id <= b.id else !Before(Smallest(b), Smallest(a))
  }

  function Smallest(t: Table): InternalKey {
    if t.entries == [] then InternalKey(0, 0) else t.entries[0].key
  }

  predicate Ordered(byId: bool, tables: seq<Table>) {
    forall i, j | 0 <= i < j < |tables| :: InOrder(byId, tables[i], tables[j])
  }

  /** Where `t` goes in an ordered list. */
  method Position(out: seq<Table>, t: Table, byId: bool) returns (at: nat)
    requires Ordered(byId, out)
    ensures at <= |out| && Ordered(byId, out[..at] + [t] + out[at..])
  {
    at := |out|;
    while at > 0 && !InOrder(byId, out[at - 1], t)
      invariant 0 <= at <= |out|
      invariant forall k | at <= k < |out| :: InOrder(byId, t, out[k])
    {
      at := at - 1;
    }
    forall k | 0 <= k < at ensures InOrder(byId, out[k], t) {
      assert k < at - 1 ==> InOrder(byId, out[k], out[at - 1]);
    }
  }

  lemma InsertMultiset(out: seq<Table>, t: Table, at: nat)
    requires at <= |out|
    ensures multiset(out[..at] + [t] + out[at..]) == multiset(out) + multiset{t}
  {
    assert out == out[..at] + out[at..];
  }

  /** sort.Slice. */
  method SortTables(tables: seq<Table>, byId: bool) returns (out: seq<Table>)
    ensures multiset(out) == multiset(tables) && Ordered(byId, out)
    ensures Apart(tables) ==> Apart(out)
  {
    hide InOrder, Disjoint;
    out := [];
    for i := 0 to |tables|
      invariant multiset(out) == multiset(tables[..i])
      invariant Ordered(byId, out)
      invariant Apart(tables) ==> Apart(out + tables[i..])
    {
      var t := tables[i];
      var at := Position(out, t, byId);
      InsertMultiset(out, t, at);
      assert tables[..i + 1] == tables[..i] + [t];
      assert out + tables[i..] == out + [t] + tables[i + 1..];
      InsertKeepsApart(out, t, tables[i + 1..], at);
      out := out[..at] + [t] + out[at..];
    }
    assert tables[..|tables|] == tables && out + tables[|tables|..] == out;
  }

  lemma InsertKeepsApart(out: seq<Table>, t: Table, rest: seq<Table>, at: nat)
    requires at <= |out|
    ensures Apart(out + [t] + rest) ==> Apart(out[..at] + [t] + out[at..] + rest)
  {
    var a, b := out + [t] + rest, out[..at] + [t] + out[at..] + rest;
    if Apart(a) {
      forall i, j | 0 <= i < |b| && 0 <= j < |b| && i != j ensures Disjoint(b[i], b[j]) {
        var x := if i < at then i else if i == at then |out| else if i <= |out| then i - 1 else i;
        var y := if j < at then j else if j == at then |out| else if j <= |out| then j - 1 else j;
        assert b[i] == a[x] && b[j] == a[y];
      }
    }
  }

  lemma {:induction false} KeptApart(tables: seq<Table>, gone: set<nat>)
    requires Apart(tables)
    ensures Apart(Kept(tables, gone))
  {
    if tables != [] {
      KeptApart(tables[..|tables| - 1], gone);
      var front, last := Kept(tables[..|tables| - 1], gone), tables[|tables| - 1];
      forall i | 0 <= i < |front| ensures Disjoint(front[i], last) {
        assert front[i] in front;
      }
    }
  }

  /** Sorted by smallest key, tables that are pairwise apart form a sorted level. */
  lemma ApartAndOrdered(tables: seq<Table>)
    requires AllGood(tables) && Apart(tables) && Ordered(false, tables)
    ensures LevelSorted(tables)
  {
    forall i, j | 0 <= i < j < |tables| ensures tables[i].Hi() < tables[j].Lo() {
      LoHi(tables[i]);
      LoHi(tables[j]);
      assert InOrder(false, tables[i], tables[j]);
    }
  }

  lemma {:induction false} KeptSorted(tables: seq<Table>, gone: set<nat>)
    requires LevelSorted(tables)
    ensures LevelSorted(Kept(tables, gone))
  {
    if tables != [] {
      var n := |tables| - 1;
      KeptSorted(tables[..n], gone);
      if tables[n].id !in gone {
        ExtendSorted(Kept(tables[..n], gone), tables[n]) by {
          forall t | t in Kept(tables[..n], gone) ensures t.Hi() < tables[n].Lo() {
            var k :| 0 <= k < n && tables[..n][k] == t;
          }
        }
      }
    }
  }

  lemma ExtendSorted(front: seq<Table>, last: Table)
    requires LevelSorted(front) && last.Valid() && forall t | t in front :: t.Hi() < last.Lo()
    ensures LevelSorted(front + [last])
  {
    assert forall i | 0 <= i < |front| :: front[i] in front;
  }

  class LevelHandler {
    const level: nat
    var tables: seq<Table>

    constructor (level: nat)
      ensures this.level == level && tables == []
    {
      this.level := level;
      tables := [];
    }

    predicate Unordered() {
      level == 0 || level == 98
    }

    ghost predicate Valid()
      reads this
    {
      && AllGood(tables) && Stamped(Files(AsSet(tables)))
      && (!Unordered() ==> LevelSorted(tables))
    }

    /** The tables that meet a key range form one stretch of a sorted level. */
    method OverlappingTables(lo: UserKey, hi: UserKey) returns (left: nat, right: nat)
      requires LevelSorted(tables) && lo <= hi
      ensures left <= right <= |tables|
      ensures forall i | 0 <= i < |tables| :: left <= i < right <==> tables[i].Lo() <= hi && lo <= tables[i].Hi()
    {
      var ts := tables;
      var ends := (i: nat) => if i < |ts| then lo <= ts[i].Hi() else true;
      var starts := (i: nat) => if i < |ts| then hi < ts[i].Lo() else true;
      forall i | 0 <= i < |ts| ensures ts[i].Lo() <= ts[i].Hi() {
        LoHi(ts[i]);
      }
      left := Search(|ts|, ends);
      right := Search(|ts|, starts);
      forall i | 0 <= i < |ts| ensures (lo <= ts[i].Hi() <==> left <= i) && (hi < ts[i].Lo() <==> right <= i) {
        assert ends(i) == (lo <= ts[i].Hi()) && starts(i) == (hi < ts[i].Lo());
      }
      assert right < |ts| ==> lo <= ts[right].Hi();
    }

    /** Level 0 and L98 offer every table, newest first; a sorted level at most one. */
    method GetTableForKey(user: UserKey, ts: nat) returns (out: seq<Table>)
      requires Valid()
      ensures forall t | t in out :: t in tables
      ensures Unordered() ==> out == Reverse(tables)
      ensures forall t, e | t in tables && e in t.entries && e.key.user == user && e.key.ts <= ts :: t in out
    {
      if Unordered() {
        out := [];
        var i := |tables|;
        while i > 0
          invariant 0 <= i <= |tables|
          invariant out == Reverse(tables[i..])
        {
          i := i - 1;
          assert tables[i..][1..] == tables[i + 1..];
          out := out + [tables[i]];
        }
        assert tables[0..] == tables;
        ReverseHasAll(tables);
        return;
      }
      var list, key := tables, InternalKey(user, ts);
      BiggestAscend(list, key);
      var reaches := (i: nat) => if i < |list| then !Before(Biggest(list[i]), key) else true;
      var idx := Search(|list|, reaches);
      forall a | 0 <= a < |list| ensures !Before(Biggest(list[a]), key) <==> idx <= a {
        assert reaches(a) == !Before(Biggest(list[a]), key);
      }
      forall t, e | t in tables && e in t.entries && e.key.user == user && e.key.ts <= ts
        ensures idx < |tables| && t == tables[idx]
      {
        var i :| 0 <= i < |list| && list[i] == t;
        OnlyTableForKey(list, user, ts, idx, i, e);
      }
      out := if idx >= |tables| then [] else [tables[idx]];
    }

    /** The newest version in this level. `doesNotHave` is the table's bloom filter: it may
        only say so of keys the table does not have. */
    method Get(user: UserKey, ts: nat, doesNotHave: (Table, UserKey) -> bool) returns (maxVs: Option<Entry>)
      requires Valid()
      requires forall t, e | t in tables && e in t.entries && e.key.user == user :: !doesNotHave(t, user)
      ensures Finds(Files(AsSet(tables)), user, ts, maxVs)
    {
      var candidates := GetTableForKey(user, ts);
      maxVs := None;
      ghost var seen: set<Entry> := {};
      for i := 0 to |candidates|
        invariant Finds(seen, user, ts, maxVs) && Stamped(seen) && seen <= Files(AsSet(tables))
        invariant forall k, e | 0 <= k < i && e in candidates[k].entries && e.key.user == user :: e in seen
      {
        var t := candidates[i];
        if doesNotHave(t, user) {
          continue;
        }
        assert t in candidates && t in AsSet(tables);
        assert Set(t.entries) <= Files(AsSet(tables));
        var found := Seek(t.entries, InternalKey(user, ts));
        SeekFinds(t.entries, user, ts, found);
        FindsUnion(seen, Set(t.entries), user, ts, maxVs, SameUser(found, user));
        if found.Some? && found.value.key.user == user && Version(maxVs) < found.value.key.ts {
          maxVs := found;
        }
        seen := seen + Set(t.entries);
      }
      forall e | e in Files(AsSet(tables)) && e.key.user == user && e.key.ts <= ts ensures e in seen {
        var t :| t in AsSet(tables) && e in t.entries;
        assert t in candidates;
        var k :| 0 <= k < |candidates| && candidates[k] == t;
      }
    }

    /** replaceTables: L98 is put back in id order, every other level in key order. */
    method ReplaceTables(toDel: seq<Table>, toAdd: seq<Table>)
      requires AllGood(tables) && AllGood(toAdd)
      modifies this`tables
      ensures multiset(tables) == multiset(Kept(old(tables), Ids(toDel)) + toAdd)
      ensures Ordered(level == 98, tables)
      ensures level != 98 && Apart(Kept(old(tables), Ids(toDel)) + toAdd) ==> LevelSorted(tables)
    {
      var kept := Filtered(Ids(toDel));
      var sorted := SortTables(kept + toAdd, level == 98);
      forall t | t in sorted ensures t in kept + toAdd {
        assert t in multiset(sorted);
      }
      assert forall i | 0 <= i < |sorted| :: sorted[i] in sorted;
      tables := sorted;
      if level != 98 && Apart(kept + toAdd) {
        ApartAndOrdered(tables);
      }
    }

    method DeleteTables(toDel: seq<Table>)
      modifies this`tables
      ensures tables == Kept(old(tables), Ids(toDel))
      ensures old(LevelSorted(tables)) ==> LevelSorted(tables)
    {
      if LevelSorted(tables) {
        KeptSorted(tables, Ids(toDel));
      }
      tables := Filtered(Ids(toDel));
    }

    method Filtered(gone: set<nat>) returns (kept: seq<Table>)
      ensures kept == Kept(tables, gone)
    {
      kept := [];
      for i := 0 to |tables|
        invariant kept == Kept(tables[..i], gone)
      {
        assert tables[..i + 1][..i] == tables[..i];
        if tables[i].id !in gone {
          kept := kept + [tables[i]];
        }
      }
      assert tables[..|tables|] == tables;
    }
  }
}
