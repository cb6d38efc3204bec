/** The child iterators of an iteration: one over each memtable and over each table of level 0 and
    L98, newest first, and one over all tables of every other level, table after table. */
module Children {
  import opened Keys
  import opened Compaction
  import opened Snapshots
  import opened Lsm
  import opened Levels
  import opened Lookup
  import opened Merge

  /** The entries of a table in the direction of the iteration. */
  function Face(reverse: bool, es: seq<Entry>): seq<Entry> {
    if reverse then Backwards(es) else es
  }

  function First(reverse: bool, tables: seq<Table>): Table
    requires tables != []
  {
    if reverse then tables[|tables| - 1] else tables[0]
  }

  function Rest(reverse: bool, tables: seq<Table>): seq<Table>
    requires tables != []
  {
    if reverse then tables[..|tables| - 1] else tables[1..]
  }

  /** All entries of a sorted level, table after table. */
  function Flat(reverse: bool, tables: seq<Table>): seq<Entry>
    decreases |tables|
  {
    if tables == [] then [] else Face(reverse, First(reverse, tables).entries) + Flat(reverse, Rest(reverse, tables))
  }

  // ---------- What such a list is ----------

  /** The lists of the child iterators hold these entries between them. */
  ghost predicate Covering(reverse: bool, lists: seq<seq<Entry>>, s: set<Entry>) {
    && (forall i | 0 <= i < |lists| :: Strict(reverse, lists[i]))
    && forall e :: e in s <==> exists i :: 0 <= i < |lists| && e in lists[i]
  }

  lemma CoverNone(reverse: bool)
    ensures Covering(reverse, [], {})
  {
  }

  lemma CoverOne(reverse: bool, list: seq<Entry>)
    requires Strict(reverse, list)
    ensures Covering(reverse, [list], Set(list))
  {
    forall e | e in Set(list) ensures exists i :: 0 <= i < |[list]| && e in [list][i] {
      assert e in [list][0];
    }
  }

  lemma CoverBoth(reverse: bool, a: seq<seq<Entry>>, b: seq<seq<Entry>>, s: set<Entry>, t: set<Entry>)
    requires Covering(reverse, a, s) && Covering(reverse, b, t)
    ensures Covering(reverse, a + b, s + t)
  {
    hide Strict;
    forall e | e in s + t ensures exists i :: 0 <= i < |a + b| && e in (a + b)[i] {
      if e in s {
        var i :| 0 <= i < |a| && e in a[i];
        assert e in (a + b)[i];
      } else {
        var i :| 0 <= i < |b| && e in b[i];
        assert e in (a + b)[|a| + i];
      }
    }
  }

  lemma FaceHas(reverse: bool, es: seq<Entry>)
    requires Sorted(es)
    ensures Strict(reverse, Face(reverse, es)) && Set(Face(reverse, es)) == Set(es)
    ensures |Face(reverse, es)| == |es|
  {
    BackwardsHas(es);
  }

  /** The last entry of a table in the direction of the iteration is the furthest. */
  lemma LastIsFurthest(reverse: bool, face: seq<Entry>, key: InternalKey)
    requires Strict(reverse, face) && face != []
    ensures Ahead(reverse, face[|face| - 1].key, key) ==> forall x | x in face :: Ahead(reverse, x.key, key)
  {
    forall x | x in face && Ahead(reverse, face[|face| - 1].key, key) ensures Ahead(reverse, x.key, key) {
      var i :| 0 <= i < |face| && face[i] == x;
      assert i < |face| - 1 ==> Ahead(reverse, face[i].key, face[|face| - 1].key);
    }
  }

  lemma StrictJoin(reverse: bool, a: seq<Entry>, b: seq<Entry>)
    requires Strict(reverse, a) && Strict(reverse, b)
    requires forall x, y | x in a && y in b :: Ahead(reverse, x.key, y.key)
    ensures Strict(reverse, a + b)
  {
    var ab := a + b;
    forall i, j | 0 <= i < j < |ab| ensures Ahead(reverse, ab[i].key, ab[j].key) {
      if i < |a| <= j {
        assert a[i] in a && b[j - |a|] in b;
      }
    }
  }

  lemma RestSorted(reverse: bool, tables: seq<Table>)
    requires LevelSorted(tables) && tables != []
    ensures LevelSorted(Rest(reverse, tables)) && First(reverse, tables).Valid()
    ensures AsSet(tables) == {First(reverse, tables)} + AsSet(Rest(reverse, tables))
  {
    hide Table.Valid;
    var first, rest := First(reverse, tables), Rest(reverse, tables);
    assert tables == if reverse then rest + [first] else [first] + rest;
  }

  lemma FirstIsAhead(reverse: bool, tables: seq<Table>, x: Entry, y: Entry)
    requires LevelSorted(tables) && tables != []
    requires x in First(reverse, tables).entries && y in Files(AsSet(Rest(reverse, tables)))
    ensures Ahead(reverse, x.key, y.key)
  {
    var first, rest := First(reverse, tables), Rest(reverse, tables);
    var t :| t in AsSet(rest) && y in t.entries;
    var i :| 0 <= i < |rest| && rest[i] == t;
    LoHi(first);
    LoHi(t);
    if reverse {
      assert t == tables[i];
    } else {
      assert t == tables[i + 1];
    }
  }

  /** The list of a sorted level is strictly ordered and holds what the level holds. */
  lemma {:induction false} FlatHas(reverse: bool, tables: seq<Table>)
    requires LevelSorted(tables)
    ensures Strict(reverse, Flat(reverse, tables)) && Set(Flat(reverse, tables)) == Files(AsSet(tables))
    decreases |tables|
  {
    hide LevelSorted, Strict, Face, Ahead;
    if tables == [] {
      assert Strict(reverse, []) by { Nothing(reverse); }
    } else {
      var first, rest := First(reverse, tables), Rest(reverse, tables);
      RestSorted(reverse, tables);
      FlatHas(reverse, rest);
      FaceHas(reverse, first.entries);
      var face := Face(reverse, first.entries);
      forall x, y | x in face && y in Flat(reverse, rest) ensures Ahead(reverse, x.key, y.key) {
        assert x in Set(face) && y in Set(Flat(reverse, rest));
        FirstIsAhead(reverse, tables, x, y);
      }
      StrictJoin(reverse, face, Flat(reverse, rest));
      FilesMore(first, AsSet(rest));
      assert Set(face + Flat(reverse, rest)) == Set(face) + Set(Flat(reverse, rest));
    }
  }

  lemma Nothing(reverse: bool)
    ensures Strict(reverse, [])
  {
  }

  lemma FilesMore(t: Table, tables: set<Table>)
    ensures Files({t} + tables) == Set(t.entries) + Files(tables)
  {
    assert t in {t} + tables;
  }

  // ---------- Going through a level ----------

  lemma {:induction false} FromPast(reverse: bool, a: seq<Entry>, b: seq<Entry>, key: InternalKey)
    requires forall x | x in a :: Ahead(reverse, x.key, key)
    ensures From(reverse, a + b, key) == From(reverse, b, key)
  {
    if a == [] {
      assert a + b == b;
    } else {
      assert (a + b)[1..] == a[1..] + b;
      FromPast(reverse, a[1..], b, key);
    }
  }

  lemma {:induction false} FromHere(reverse: bool, a: seq<Entry>, b: seq<Entry>, key: InternalKey)
    requires a != [] && !Ahead(reverse, a[|a| - 1].key, key)
    ensures From(reverse, a, key) != [] && From(reverse, a + b, key) == From(reverse, a, key) + b
  {
    assert (a + b)[1..] == a[1..] + b;
    if Ahead(reverse, a[0].key, key) {
      FromHere(reverse, a[1..], b, key);
    }
  }

  /** The table that the iteration comes to after `n` others, and what is left behind it. */
  function Nth(reverse: bool, tables: seq<Table>, n: nat): Table
    requires n < |tables|
  {
    if reverse then tables[|tables| - 1 - n] else tables[n]
  }

  function Beyond(reverse: bool, tables: seq<Table>, n: nat): seq<Table>
    requires n < |tables|
  {
    if reverse then tables[..|tables| - 1 - n] else tables[n + 1..]
  }

  /** The whole table lies before the key. */
  predicate Short(reverse: bool, t: Table, key: InternalKey) {
    if reverse then Before(key, Smallest(t)) else Before(Biggest(t), key)
  }

  lemma ShortTable(reverse: bool, t: Table, key: InternalKey)
    requires t.Valid()
    ensures var face := Face(reverse, t.entries);
            face != [] && (Short(reverse, t, key) <==> Ahead(reverse, face[|face| - 1].key, key))
  {
  }

  lemma NthOfRest(reverse: bool, tables: seq<Table>, n: nat)
    requires n + 1 < |tables|
    ensures Nth(reverse, Rest(reverse, tables), n) == Nth(reverse, tables, n + 1)
    ensures Beyond(reverse, Rest(reverse, tables), n) == Beyond(reverse, tables, n + 1)
  {
  }

  /** The first `n` tables lie before the key, and the next one, if there is one, reaches it. */
  lemma {:induction false} SeekFlat(reverse: bool, tables: seq<Table>, key: InternalKey, n: nat)
    requires LevelSorted(tables) && n <= |tables|
    requires forall i | 0 <= i < n :: Short(reverse, Nth(reverse, tables, i), key)
    requires n < |tables| ==> !Short(reverse, Nth(reverse, tables, n), key)
    ensures From(reverse, Flat(reverse, tables), key) ==
            if n == |tables| then []
            else From(reverse, Face(reverse, Nth(reverse, tables, n).entries), key) + Flat(reverse, Beyond(reverse, tables, n))
    ensures n < |tables| ==> From(reverse, Face(reverse, Nth(reverse, tables, n).entries), key) != []
    decreases n
  {
    hide LevelSorted, Ahead, From, Strict, Short, Face, Table.Valid;
    if tables == [] {
      FromNothing(reverse, key);
    } else {
      var first, rest := First(reverse, tables), Rest(reverse, tables);
      var face := Face(reverse, first.entries);
      RestSorted(reverse, tables);
      FaceHas(reverse, first.entries) by { ValidSorted(first); }
      ShortTable(reverse, first, key);
      assert Nth(reverse, tables, 0) == first && Beyond(reverse, tables, 0) == rest;
      if n == 0 {
        FromHere(reverse, face, Flat(reverse, rest), key);
      } else {
        LastIsFurthest(reverse, face, key);
        FromPast(reverse, face, Flat(reverse, rest), key);
        forall i | 0 <= i < |rest|
          ensures Nth(reverse, rest, i) == Nth(reverse, tables, i + 1) && Beyond(reverse, rest, i) == Beyond(reverse, tables, i + 1)
        {
          NthOfRest(reverse, tables, i);
        }
        SeekFlat(reverse, rest, key, n - 1);
      }
    }
  }

  lemma ValidSorted(t: Table)
    requires t.Valid()
    ensures Sorted(t.entries) && t.entries != []
  {
  }

  lemma FromNothing(reverse: bool, key: InternalKey)
    ensures From(reverse, [], key) == []
  {
  }

  /** The place in one table that its own iterator seeks. */
  function Place(reverse: bool, es: seq<Entry>, key: InternalKey): (at: nat)
    ensures at <= |es| && es[at..] == From(reverse, es, key)
  {
    if es == [] then 0 else if Ahead(reverse, es[0].key, key) then 1 + Place(reverse, es[1..], key) else 0
  }

  class ConcatIterator {
    const tables: seq<Table>
    const reverse: bool
    var idx: int
    /** The position in the table at `idx`. */
    var pos: nat

    constructor (tables: seq<Table>, reverse: bool)
      requires LevelSorted(tables)
      ensures this.tables == tables && this.reverse == reverse && Valid() && Left() == []
    {
      this.tables, this.reverse, idx, pos := tables, reverse, -1, 0;
    }

    ghost predicate Valid()
      reads this
    {
      LevelSorted(tables) && -1 <= idx <= |tables| && (OnTable() ==> pos < |tables[idx].entries|)
    }

    predicate OnTable()
      reads this
    {
      0 <= idx < |tables|
    }

    /** How many tables the iteration has come to before this one. */
    function Count(): nat
      requires OnTable()
      reads this
    {
      if reverse then |tables| - 1 - idx else idx
    }

    /** What is still to come, from the current entry on. */
    ghost function Left(): seq<Entry>
      requires Valid()
      reads this
    {
      if OnTable() then
        var face := Face(reverse, tables[idx].entries);
        face[pos..] + Flat(reverse, Beyond(reverse, tables, Count()))
      else []
    }

    method Rewind()
      requires Valid()
      modifies this
      ensures Valid() && Left() == Flat(reverse, tables)
    {
      if |tables| == 0 {
        return;
      }
      assert tables[0].Valid() && tables[|tables| - 1].Valid();
      idx := if !reverse then 0 else |tables| - 1;
      pos := 0;
      assert Beyond(reverse, tables, 0) == Rest(reverse, tables);
    }

    method IsValid() returns (valid: bool)
      requires Valid()
      ensures valid <==> Left() != []
    {
      valid := OnTable();
      if valid {
        assert Face(reverse, tables[idx].entries)[pos..] != [];
      }
    }

    method Item() returns (e: Entry)
      requires Valid() && Left() != []
      ensures e == Left()[0]
    {
      e := if reverse then tables[idx].entries[|tables[idx].entries| - 1 - pos] else tables[idx].entries[pos];
    }

    /** On to the next table when the current one is done; no table is empty. */
    method Next()
      requires Valid() && Left() != []
      modifies this
      ensures Valid() && Left() == old(Left())[1..]
    {
      hide Flat, Face, LevelSorted, Beyond;
      NoneEmpty();
      Taken(tables, reverse, Count(), pos);
      pos := pos + 1;
      if pos < |tables[idx].entries| {
        return;
      }
      idx := if !reverse then idx + 1 else idx - 1;
      pos := 0;
    }

    lemma NoneEmpty()
      requires LevelSorted(tables)
      ensures forall i | 0 <= i < |tables| :: tables[i].entries != []
    {
      forall i | 0 <= i < |tables| ensures tables[i].entries != [] {
        assert tables[i].Valid();
      }
    }

    /** What is left when one entry of the `n`-th table has been taken. */
    static lemma Taken(tables: seq<Table>, reverse: bool, n: nat, pos: nat)
      requires LevelSorted(tables) && n < |tables| && pos < |Nth(reverse, tables, n).entries|
      ensures var (face, rest) := (Face(reverse, Nth(reverse, tables, n).entries), Flat(reverse, Beyond(reverse, tables, n)));
              && |face| == |Nth(reverse, tables, n).entries|
              && (face[pos..] + rest)[1..] ==
                 if pos + 1 < |face| then face[pos + 1..] + rest
                 else if n + 1 == |tables| then []
                 else Face(reverse, Nth(reverse, tables, n + 1).entries)[0..] + Flat(reverse, Beyond(reverse, tables, n + 1))
    {
      var (face, rest) := (Face(reverse, Nth(reverse, tables, n).entries), Flat(reverse, Beyond(reverse, tables, n)));
      assert (face[pos..] + rest)[1..] == face[pos + 1..] + rest;
      if pos + 1 == |face| {
        assert face[pos + 1..] + rest == rest;
        if n + 1 < |tables| {
          var left := Beyond(reverse, tables, n);
          assert First(reverse, left) == Nth(reverse, tables, n + 1) && Rest(reverse, left) == Beyond(reverse, tables, n + 1);
          var next := Face(reverse, Nth(reverse, tables, n + 1).entries);
          assert next[0..] == next;
        }
      }
    }

    method Seek(key: InternalKey)
      requires Valid()
      modifies this
      ensures Valid() && Left() == From(reverse, Flat(reverse, tables), key)
    {
      hide LevelSorted, From, Ahead, Strict, Short, Flat, Face;
      var n := FirstReaching(key);
      SeekFlat(reverse, tables, key, n);
      if n == |tables| {
        idx := -1;
        return;
      }
      idx := if reverse then |tables| - 1 - n else n;
      FaceSize(reverse, tables[idx].entries);
      pos := Place(reverse, Face(reverse, tables[idx].entries), key);
      assert Face(reverse, tables[idx].entries)[pos..] != [];
    }

    static lemma FaceSize(reverse: bool, es: seq<Entry>)
      ensures |Face(reverse, es)| == |es|
    {
    }

    /** The two searches of Seek: how many tables lie before the key. */
    method FirstReaching(key: InternalKey) returns (n: nat)
      requires LevelSorted(tables)
      ensures n <= |tables| && forall i | 0 <= i < |tables| :: Short(reverse, Nth(reverse, tables, i), key) <==> i < n
    {
      hide LevelSorted, Before, Biggest, Smallest;
      var ts := tables;
      if !reverse {
        var reaches := (i: nat) => i < |ts| ==> !Before(Biggest(ts[i]), key);
        BiggestAscend(tables, key);
        n := Search(|ts|, reaches);
        assert forall i: nat | i < |ts| :: reaches(i) <==> !Short(reverse, Nth(reverse, tables, i), key);
      } else {
        var reaches := (i: nat) => i < |ts| ==> !Before(key, Smallest(ts[|ts| - 1 - i]));
        SmallestFall(key);
        n := Search(|ts|, reaches);
        assert forall i: nat | i < |ts| :: reaches(i) <==> !Short(reverse, Nth(reverse, tables, i), key);
      }
    }

    lemma SmallestFall(key: InternalKey)
      requires LevelSorted(tables)
      ensures forall i, j | 0 <= i < j < |tables| && Before(key, Smallest(tables[i])) :: Before(key, Smallest(tables[j]))
    {
      forall i, j | 0 <= i < j < |tables| ensures tables[i].Lo() < tables[j].Lo() && tables[i].Valid() && tables[j].Valid() {
        LoHi(tables[i]);
      }
    }
  }

  // ---------- The children of an iteration ----------

  /** The tables of level 0 and of L98, newest first. */
  function NewestFirst(reverse: bool, tables: seq<Table>): seq<seq<Entry>> {
    if tables == [] then []
    else [Face(reverse, tables[|tables| - 1].entries)] + NewestFirst(reverse, tables[..|tables| - 1])
  }

  function LevelLists(reverse: bool, level: nat, tables: seq<Table>): seq<seq<Entry>> {
    if level == 0 || level == 98 then NewestFirst(reverse, tables)
    else if tables == [] then [] else [Flat(reverse, tables)]
  }

  lemma NewestFirstAppend(reverse: bool, tables: seq<Table>, i: nat)
    requires i < |tables|
    ensures NewestFirst(reverse, tables[i..]) == NewestFirst(reverse, tables[i + 1..]) + [Face(reverse, tables[i].entries)]
    decreases |tables|
  {
    if i + 1 < |tables| {
      var front := tables[..|tables| - 1];
      assert tables[i..][..|tables| - i - 1] == front[i..] && tables[i + 1..][..|tables| - i - 2] == front[i + 1..];
      NewestFirstAppend(reverse, front, i);
    } else {
      assert tables[i..] == [tables[i]] && tables[i + 1..] == [] && [tables[i]][..0] == [];
    }
  }

  /** levelHandler.appendIterators, for an iteration that picks every table. */
  method AppendIterators(h: LevelHandler, iters: seq<seq<Entry>>, reverse: bool) returns (out: seq<seq<Entry>>)
    ensures out == iters + LevelLists(reverse, h.level, h.tables)
  {
    var tables := h.tables;
    if h.level == 0 || h.level == 98 {
      out := iters;
      var i := |tables|;
      while i > 0
        invariant 0 <= i <= |tables| && out == iters + NewestFirst(reverse, tables[i..])
      {
        i := i - 1;
        NewestFirstAppend(reverse, tables, i);
        out := out + [Face(reverse, tables[i].entries)];
      }
      assert tables[0..] == tables;
      return;
    }
    if |tables| == 0 {
      return iters + [];
    }
    out := iters + [Flat(reverse, tables)];
  }

  lemma {:induction false} NewestFirstCovers(reverse: bool, tables: seq<Table>)
    requires AllGood(tables)
    ensures Covering(reverse, NewestFirst(reverse, tables), Files(AsSet(tables)))
  {
    hide Covering, Face;
    if tables == [] {
      CoverNone(reverse);
      assert Files(AsSet(tables)) == {};
    } else {
      var front, last := tables[..|tables| - 1], tables[|tables| - 1];
      NewestFirstCovers(reverse, front);
      FaceHas(reverse, last.entries);
      CoverOne(reverse, Face(reverse, last.entries));
      CoverBoth(reverse, [Face(reverse, last.entries)], NewestFirst(reverse, front), Set(last.entries), Files(AsSet(front)));
      FilesMore(last, AsSet(front));
      assert tables == front + [last];
      assert AsSet(tables) == {last} + AsSet(front);
    }
  }

  lemma LevelCovers(reverse: bool, level: nat, tables: seq<Table>)
    requires AllGood(tables) && (level != 0 && level != 98 ==> LevelSorted(tables))
    ensures Covering(reverse, LevelLists(reverse, level, tables), Files(AsSet(tables)))
  {
    hide Covering, LevelSorted, AllGood, Flat;
    if level == 0 || level == 98 {
      NewestFirstCovers(reverse, tables);
    } else if tables == [] {
      CoverNone(reverse);
      assert Files(AsSet(tables)) == {};
    } else {
      FlatHas(reverse, tables);
      CoverOne(reverse, Flat(reverse, tables));
    }
  }

  /** The lists that NewIterator merges: the memtables, the hot tier, and the levels downwards. */
  method NewIterators(db: DB, reverse: bool, ghost doesNotHave: (Table, UserKey) -> bool) returns (lists: seq<seq<Entry>>)
    requires db.Ready(doesNotHave)
    ensures Covering(reverse, lists, db.Contents())
  {
    hide Covering, Flat, LevelLists, Sorted, LevelHandler.Valid, NoFalseNegatives, Files;
    var mem, lc := db.mem, db.lc;
    lists := [];
    CoverNone(reverse);
    ghost var done: set<Entry> := {};
    for i := 0 to |mem|
      invariant Covering(reverse, lists, done) && done + InMemory(mem, i) == InMemory(mem, 0)
    {
      FaceHas(reverse, mem[i]);
      CoverOne(reverse, Face(reverse, mem[i]));
      CoverBoth(reverse, lists, [Face(reverse, mem[i])], done, Set(mem[i]));
      lists := lists + [Face(reverse, mem[i])];
      done := done + Set(mem[i]);
    }
    assert done == InMemory(mem, 0);
    assert lc.hotTier in lc.Handlers() && lc.hotTierOrd in lc.Handlers();
    lists := Append(lc.hotTier, lists, reverse, done);
    done := done + Stored(lc.hotTier);
    lists := Append(lc.hotTierOrd, lists, reverse, done);
    done := done + Stored(lc.hotTierOrd);
    for i := 0 to |lc.levels|
      invariant Covering(reverse, lists, done) && done == InMemory(mem, 0) + Stored(lc.hotTier) + Stored(lc.hotTierOrd) + lc.Below(i)
    {
      assert lc.levels[i] in lc.Handlers();
      lists := Append(lc.levels[i], lists, reverse, done);
      done := done + Stored(lc.levels[i]);
    }
    assert done == db.Contents();
  }

  method Append(h: LevelHandler, iters: seq<seq<Entry>>, reverse: bool, ghost done: set<Entry>) returns (out: seq<seq<Entry>>)
    requires h.Valid() && Covering(reverse, iters, done)
    ensures Covering(reverse, out, done + Stored(h))
  {
    hide Covering, LevelLists;
    out := AppendIterators(h, iters, reverse);
    LevelCovers(reverse, h.level, h.tables);
    CoverBoth(reverse, iters, LevelLists(reverse, h.level, h.tables), done, Stored(h));
  }
}
