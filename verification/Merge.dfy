/** What a merge of ordered lists is: the strictly ordered union, the left list winning ties. */
module Merge {
  import opened Keys
  import opened Compaction

  type Item = Entry

  /** `a` comes before `b` in the direction of the iteration. */
  predicate Ahead(reverse: bool, a: InternalKey, b: InternalKey) {
    if reverse then Before(b, a) else Before(a, b)
  }

  predicate Strict(reverse: bool, s: seq<Item>) {
    forall i, j | 0 <= i < j < |s| :: Ahead(reverse, s[i].key, s[j].key)
  }

  ghost predicate HasKey(s: seq<Item>, key: InternalKey) {
    exists x :: x in s && x.key == key
  }

  function Merged(reverse: bool, a: seq<Item>, b: seq<Item>): seq<Item> {
    if a == [] then b
    else if b == [] then a
    else if a[0].key == b[0].key then [a[0]] + Merged(reverse, a[1..], b[1..])
    else if Ahead(reverse, a[0].key, b[0].key) then [a[0]] + Merged(reverse, a[1..], b)
    else [b[0]] + Merged(reverse, a, b[1..])
  }

  /** Everything from `key` on. */
  function From(reverse: bool, s: seq<Item>, key: InternalKey): seq<Item> {
    if s == [] then []
    else if Ahead(reverse, s[0].key, key) then From(reverse, s[1..], key)
    else s
  }

  lemma StrictTail(reverse: bool, s: seq<Item>)
    requires Strict(reverse, s) && s != []
    ensures Strict(reverse, s[1..])
    ensures forall x | x in s[1..] :: x in s && Ahead(reverse, s[0].key, x.key)
  {
  }

  lemma {:induction false} MergedHas(reverse: bool, a: seq<Item>, b: seq<Item>)
    requires Strict(reverse, a) && Strict(reverse, b)
    ensures forall x :: x in Merged(reverse, a, b) <==> x in a || (x in b && !HasKey(a, x.key))
    decreases |a| + |b|
  {
    if a != [] && b != [] {
      StrictTail(reverse, a);
      StrictTail(reverse, b);
      assert a == [a[0]] + a[1..] && b == [b[0]] + b[1..];
      if a[0].key == b[0].key {
        MergedHas(reverse, a[1..], b[1..]);
      } else if Ahead(reverse, a[0].key, b[0].key) {
        MergedHas(reverse, a[1..], b);
      } else {
        MergedHas(reverse, a, b[1..]);
      }
    }
  }

  lemma {:induction false} MergedStrict(reverse: bool, a: seq<Item>, b: seq<Item>)
    requires Strict(reverse, a) && Strict(reverse, b)
    ensures Strict(reverse, Merged(reverse, a, b))
    decreases |a| + |b|
  {
    if a != [] && b != [] {
      StrictTail(reverse, a);
      StrictTail(reverse, b);
      if a[0].key == b[0].key {
        MergedHas(reverse, a[1..], b[1..]);
        MergedStrict(reverse, a[1..], b[1..]);
        StrictCons(reverse, a[0], Merged(reverse, a[1..], b[1..]));
      } else if Ahead(reverse, a[0].key, b[0].key) {
        MergedHas(reverse, a[1..], b);
        MergedStrict(reverse, a[1..], b);
        StrictCons(reverse, a[0], Merged(reverse, a[1..], b));
      } else {
        MergedHas(reverse, a, b[1..]);
        MergedStrict(reverse, a, b[1..]);
        StrictCons(reverse, b[0], Merged(reverse, a, b[1..]));
      }
    }
  }

  lemma StrictCons(reverse: bool, x: Item, s: seq<Item>)
    requires Strict(reverse, s) && forall y | y in s :: Ahead(reverse, x.key, y.key)
    ensures Strict(reverse, [x] + s)
  {
  }

  lemma {:induction false} FromHas(reverse: bool, s: seq<Item>, key: InternalKey)
    requires Strict(reverse, s)
    ensures Strict(reverse, From(reverse, s, key))
    ensures forall x :: x in From(reverse, s, key) <==> x in s && !Ahead(reverse, x.key, key)
  {
    if s != [] {
      StrictTail(reverse, s);
      FromHas(reverse, s[1..], key);
      assert s == [s[0]] + s[1..];
    }
  }

  lemma HeadIn(s: seq<Item>)
    ensures s == [] || s[0] in s
  {
  }

  /** A strictly ordered list is determined by its members. */
  lemma {:induction false} StrictUnique(reverse: bool, s: seq<Item>, t: seq<Item>)
    requires Strict(reverse, s) && Strict(reverse, t) && forall x :: x in s <==> x in t
    ensures s == t
  {
    if s == [] {
      HeadIn(t);
    } else {
      assert s[0] in t && t != [] && t[0] in s;
      StrictTail(reverse, s);
      StrictTail(reverse, t);
      assert s == [s[0]] + s[1..] && t == [t[0]] + t[1..];
      assert s[0] == t[0];
      assert forall x :: x in s[1..] <==> x in s && x != s[0];
      assert forall x :: x in t[1..] <==> x in t && x != t[0];
      StrictUnique(reverse, s[1..], t[1..]);
    }
  }

  /** Seeking in the merge is merging what seeking leaves of each side. */
  lemma FromMerged(reverse: bool, a: seq<Item>, b: seq<Item>, key: InternalKey)
    requires Strict(reverse, a) && Strict(reverse, b)
    ensures From(reverse, Merged(reverse, a, b), key) == Merged(reverse, From(reverse, a, key), From(reverse, b, key))
  {
    MergedHas(reverse, a, b);
    MergedStrict(reverse, a, b);
    FromHas(reverse, Merged(reverse, a, b), key);
    FromHas(reverse, a, key);
    FromHas(reverse, b, key);
    MergedHas(reverse, From(reverse, a, key), From(reverse, b, key));
    MergedStrict(reverse, From(reverse, a, key), From(reverse, b, key));
    forall x | x in From(reverse, b, key) ensures HasKey(From(reverse, a, key), x.key) <==> HasKey(a, x.key) {
    }
    StrictUnique(reverse, From(reverse, Merged(reverse, a, b), key),
                 Merged(reverse, From(reverse, a, key), From(reverse, b, key)));
  }

  /** Skipping the right copy of a shared first key does not change the merge. */
  lemma SkipRight(reverse: bool, a: seq<Item>, b: seq<Item>)
    requires Strict(reverse, a) && Strict(reverse, b) && a != [] && b != [] && a[0].key == b[0].key
    ensures Merged(reverse, a, b[1..]) == Merged(reverse, a, b)
    ensures b[1..] != [] ==> Ahead(reverse, a[0].key, b[1..][0].key)
  {
    assert a == [a[0]] + a[1..];
  }

  // ---------- Many lists ----------

  /** `x` is in one of the lists, and no list to its left has its key. */
  ghost predicate Wins(lists: seq<seq<Item>>, x: Item) {
    exists i :: 0 <= i < |lists| && x in lists[i] && forall j | 0 <= j < i :: !HasKey(lists[j], x.key)
  }

  ghost predicate UnionOf(reverse: bool, lists: seq<seq<Item>>, out: seq<Item>) {
    Strict(reverse, out) && forall x :: x in out <==> Wins(lists, x)
  }

  lemma SomeKeyWins(lists: seq<seq<Item>>, i: nat, key: InternalKey)
    requires i < |lists| && HasKey(lists[i], key)
    ensures exists x: Item :: x.key == key && Wins(lists, x)
    decreases i
  {
    if j: nat :| j < i && HasKey(lists[j], key) {
      SomeKeyWins(lists, j, key);
    } else {
      var x :| x in lists[i] && x.key == key;
      assert Wins(lists, x);
    }
  }

  /** Merging two unions gives the union of all the lists. */
  lemma UnionMerged(reverse: bool, left: seq<seq<Item>>, right: seq<seq<Item>>, a: seq<Item>, b: seq<Item>)
    requires UnionOf(reverse, left, a) && UnionOf(reverse, right, b)
    ensures UnionOf(reverse, left + right, Merged(reverse, a, b))
  {
    MergedHas(reverse, a, b);
    MergedStrict(reverse, a, b);
    var all := left + right;
    forall x | x in Merged(reverse, a, b) ensures Wins(all, x) {
      MergedWins(reverse, left, right, a, b, x);
    }
    forall x | Wins(all, x) ensures x in Merged(reverse, a, b) {
      WinsMerged(reverse, left, right, a, b, x);
    }
  }

  lemma WinsMerged(reverse: bool, left: seq<seq<Item>>, right: seq<seq<Item>>, a: seq<Item>, b: seq<Item>, x: Item)
    requires UnionOf(reverse, left, a) && UnionOf(reverse, right, b) && Wins(left + right, x)
    ensures x in a || (x in b && !HasKey(a, x.key))
  {
    var all := left + right;
    var i :| 0 <= i < |all| && x in all[i] && forall j | 0 <= j < i :: !HasKey(all[j], x.key);
    if i < |left| {
      assert x in left[i] && forall j | 0 <= j < i :: left[j] == all[j];
      assert Wins(left, x);
    } else {
      var k := i - |left|;
      assert x in right[k] && forall j | 0 <= j < k :: right[j] == all[|left| + j];
      assert Wins(right, x);
      forall y | y in a ensures y.key != x.key {
        assert Wins(left, y);
        var j :| 0 <= j < |left| && y in left[j];
        assert left[j] == all[j];
      }
    }
  }

  lemma MergedWins(reverse: bool, left: seq<seq<Item>>, right: seq<seq<Item>>, a: seq<Item>, b: seq<Item>, x: Item)
    requires UnionOf(reverse, left, a) && UnionOf(reverse, right, b)
    requires x in a || (x in b && !HasKey(a, x.key))
    ensures Wins(left + right, x)
  {
    var all := left + right;
    if x in a {
      assert Wins(left, x);
      var i :| 0 <= i < |left| && x in left[i] && forall j | 0 <= j < i :: !HasKey(left[j], x.key);
      assert all[i] == left[i] && forall j | 0 <= j < i :: all[j] == left[j];
    } else {
      assert Wins(right, x);
      var k :| 0 <= k < |right| && x in right[k] && forall j | 0 <= j < k :: !HasKey(right[j], x.key);
      forall j | 0 <= j < |left| + k ensures !HasKey(all[j], x.key) {
        if j < |left| && HasKey(left[j], x.key) {
          SomeKeyWins(left, j, x.key);
        }
      }
      assert all[|left| + k] == right[k];
    }
  }

  /** The list of the tree over `lists`, halved at each node. */
  function MergedAll(reverse: bool, lists: seq<seq<Item>>): seq<Item>
    decreases |lists|
  {
    if |lists| == 0 then []
    else if |lists| == 1 then lists[0]
    else
      var mid := |lists| / 2;
      Merged(reverse, MergedAll(reverse, lists[..mid]), MergedAll(reverse, lists[mid..]))
  }

  /** Whatever the shape of the tree: each key of any list once, in strict order, with the value
      of the leftmost list that has it. */
  lemma {:induction false} MergedAllIsUnion(reverse: bool, lists: seq<seq<Item>>)
    requires forall i | 0 <= i < |lists| :: Strict(reverse, lists[i])
    ensures UnionOf(reverse, lists, MergedAll(reverse, lists))
    decreases |lists|
  {
    if |lists| == 1 {
      forall x | x in lists[0] ensures Wins(lists, x) {
      }
    } else if |lists| > 1 {
      var mid := |lists| / 2;
      MergedAllIsUnion(reverse, lists[..mid]);
      MergedAllIsUnion(reverse, lists[mid..]);
      UnionMerged(reverse, lists[..mid], lists[mid..], MergedAll(reverse, lists[..mid]), MergedAll(reverse, lists[mid..]));
      assert lists[..mid] + lists[mid..] == lists;
    }
  }

  function Backwards(s: seq<Item>): (r: seq<Item>)
    ensures |r| == |s| && forall i | 0 <= i < |s| :: r[i] == s[|s| - 1 - i]
  {
    if s == [] then [] else Backwards(s[1..]) + [s[0]]
  }

  lemma BackwardsHas(s: seq<Item>)
    ensures forall x :: x in Backwards(s) <==> x in s
  {
    forall x | x in s ensures x in Backwards(s) {
      var i :| 0 <= i < |s| && s[i] == x;
      assert Backwards(s)[|s| - 1 - i] == x;
    }
  }

  /** Merging the lists backwards gives the merge backwards. */
  lemma ReverseMerge(lists: seq<seq<Item>>, back: seq<seq<Item>>)
    requires |back| == |lists|
    requires forall i | 0 <= i < |lists| :: Strict(false, lists[i]) && back[i] == Backwards(lists[i])
    ensures MergedAll(true, back) == Backwards(MergedAll(false, lists))
  {
    var out := MergedAll(false, lists);
    MergedAllIsUnion(false, lists);
    MergedAllIsUnion(true, back);
    BackwardsHas(out);
    forall i | 0 <= i < |lists| ensures forall x :: x in back[i] <==> x in lists[i] {
      BackwardsHas(lists[i]);
    }
    forall i, key | 0 <= i < |lists| ensures HasKey(back[i], key) <==> HasKey(lists[i], key) {
      assert forall x :: x in back[i] <==> x in lists[i];
    }
    forall x ensures Wins(back, x) <==> Wins(lists, x) {
    }
    StrictUnique(true, MergedAll(true, back), Backwards(out));
  }
}
