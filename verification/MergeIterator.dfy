/** table/merge_iterator.go: a binary tree of merge iterators over ordered child iterators. One
    class stands for both kinds of y.Iterator, a leaf over an ordered list and a merge node. */
module MergeIterator {
  import opened Keys
  import opened Merge

  /** The cached validity and key of a child. */
  datatype Cache = Cache(valid: bool, key: InternalKey)

  const ANY: InternalKey := InternalKey(0, 0)

  class Iter {
    const reverse: bool
    // A leaf: the items in the order of the iteration, and the position in them.
    const items: seq<Item>
    var pos: nat
    // A merge node.
    const left: Iter?
    const right: Iter?
    var leftNode: Cache
    var rightNode: Cache
    var smallIsLeft: bool
    var curKey: InternalKey

    ghost const all: seq<Item>
    ghost const height: nat
    ghost const Repr: set<object>

    constructor Leaf(items: seq<Item>, reverse: bool)
      requires Strict(reverse, items)
      ensures Valid() && fresh(Repr) && all == items && this.reverse == reverse
    {
      this.reverse, this.items, pos := reverse, items, 0;
      left, right, leftNode, rightNode := null, null, Cache(false, ANY), Cache(false, ANY);
      smallIsLeft, curKey := true, ANY;
      all, height, Repr := items, 0, {this};
    }

    /** The child iterators have not been positioned yet: `Rewind` or `Seek` comes first. */
    constructor Node(l: Iter, r: Iter, reverse: bool)
      requires l.Built() && r.Built() && l.Repr !! r.Repr && l.reverse == reverse && r.reverse == reverse
      ensures Built() && fresh(Repr - l.Repr - r.Repr) && all == Merged(reverse, l.all, r.all)
      ensures this.reverse == reverse
    {
      this.reverse, items, pos := reverse, [], 0;
      left, right, leftNode, rightNode := l, r, Cache(false, ANY), Cache(false, ANY);
      smallIsLeft, curKey := true, ANY;
      all, height := Merged(reverse, l.all, r.all), l.height + r.height + 1;
      Repr := {this} + l.Repr + r.Repr;
      new;
      MergedStrict(reverse, l.all, r.all);
    }

    predicate IsNode() {
      left != null && right != null
    }

    /** The shape of the tree, which never changes. */
    ghost predicate Built()
      decreases height
    {
      && this in Repr && Strict(reverse, all)
      && (left == null <==> right == null)
      && (!IsNode() ==> all == items)
      && (IsNode() ==>
          && left in Repr && right in Repr && left.Repr <= Repr && right.Repr <= Repr
          && this !in left.Repr && this !in right.Repr && left.Repr !! right.Repr
          && left.reverse == reverse && right.reverse == reverse
          && left.height < height && right.height < height
          && left.Built() && right.Built()
          && all == Merged(reverse, left.all, right.all))
    }

    /** What the iterator has still to deliver, from the current item on. */
    ghost function Rest(): seq<Item>
      requires Built()
      reads this, Repr
      decreases height
    {
      if IsNode() then Merged(reverse, left.Rest(), right.Rest()) else if pos <= |items| then items[pos..] else []
    }

    static ghost predicate Cached(node: Cache, rest: seq<Item>) {
      node.valid == (rest != []) && (rest != [] ==> node.key == rest[0].key)
    }

    /** `small` is the child that holds the next item, and the other child is past it. */
    ghost predicate Fixed()
      reads this
    {
      if leftNode.valid && rightNode.valid then
        leftNode.key != rightNode.key && (smallIsLeft <==> Ahead(reverse, leftNode.key, rightNode.key))
      else (leftNode.valid ==> smallIsLeft) && (rightNode.valid ==> !smallIsLeft)
    }

    ghost predicate Valid()
      reads this, Repr
      decreases height
    {
      && Built()
      && (IsNode() ==>
          && left.Valid() && right.Valid()
          && Cached(leftNode, left.Rest()) && Cached(rightNode, right.Rest())
          && Fixed()
          && (Small().valid ==> curKey == Small().key))
    }

    /** The children are positioned, and the caches hold where. */
    ghost predicate Linked()
      reads this, Repr
    {
      && Built() && IsNode() && left.Valid() && right.Valid()
      && Cached(leftNode, left.Rest()) && Cached(rightNode, right.Rest())
    }

    function Small(): Cache
      reads this
    {
      if smallIsLeft then leftNode else rightNode
    }

    lemma RestStrict()
      requires Built()
      ensures Strict(reverse, Rest())
      decreases height
    {
      if IsNode() {
        left.RestStrict();
        right.RestStrict();
        MergedStrict(reverse, left.Rest(), right.Rest());
      }
    }

    predicate IsValid()
      reads this
    {
      if IsNode() then Small().valid else pos < |items|
    }

    lemma SmallIsFirst()
      requires Linked() && Fixed()
      ensures Small().valid <==> Rest() != []
      ensures Small().valid ==> Small().key == Rest()[0].key
    {
    }

    lemma FirstOfRest()
      requires Valid()
      ensures IsValid() <==> Rest() != []
      ensures IsNode() && IsValid() ==> Small().key == Rest()[0].key
    {
      if IsNode() {
        SmallIsFirst();
      }
    }

    method Key() returns (key: InternalKey)
      requires Valid() && IsValid()
      ensures Rest() != [] && key == Rest()[0].key
    {
      FirstOfRest();
      key := if IsNode() then Small().key else items[pos].key;
    }

    /** The entry under the cursor. */
    method Value() returns (item: Item)
      requires Valid() && IsValid()
      ensures Rest() != [] && item == Rest()[0]
      decreases height
    {
      FirstOfRest();
      if !IsNode() {
        return items[pos];
      }
      if smallIsLeft {
        left.FirstOfRest();
        item := left.Value();
      } else {
        right.FirstOfRest();
        item := right.Value();
      }
    }

    /** node.setKey. */
    method SetKey(child: Iter, node: Cache) returns (updated: Cache)
      requires child.Valid()
      ensures Cached(updated, child.Rest())
    {
      child.FirstOfRest();
      updated := node.(valid := child.IsValid());
      if child.IsValid() {
        var key := child.Key();
        updated := updated.(key := key);
      }
    }

    /** node.next. */
    method MoveLeft()
      requires Linked()
      modifies left.Repr, this`leftNode
      ensures Linked() && right.Rest() == old(right.Rest())
      ensures left.Rest() == Tail(old(left.Rest()))
      decreases height, 0
    {
      hide Merged, Strict;
      left.Next();
      assert right.Valid() && right.Rest() == old(right.Rest());
      leftNode := SetKey(left, leftNode);
      assert left.Valid() && right.Valid();
    }

    method MoveRight()
      requires Linked()
      modifies right.Repr, this`rightNode
      ensures Linked() && left.Rest() == old(left.Rest())
      ensures right.Rest() == Tail(old(right.Rest()))
      decreases height, 0
    {
      hide Merged, Strict;
      right.Next();
      assert left.Valid() && left.Rest() == old(left.Rest());
      rightNode := SetKey(right, rightNode);
      assert left.Valid() && right.Valid();
    }

    static function Tail(s: seq<Item>): seq<Item> {
      if s == [] then [] else s[1..]
    }

    /** Moves the right child off a key that both children hold. */
    method SkipShared()
      requires Linked() && leftNode.valid && rightNode.valid && leftNode.key == rightNode.key
      modifies right.Repr, this`rightNode
      ensures Linked() && (rightNode.valid ==> Ahead(reverse, leftNode.key, rightNode.key))
      ensures Rest() == old(Rest()) && left.Rest() == old(left.Rest())
      ensures |right.Rest()| <= |old(right.Rest())|
      decreases height, 1
    {
      left.RestStrict();
      right.RestStrict();
      SkipRight(reverse, left.Rest(), right.Rest());
      MoveRight();
    }

    method SetSmall(isLeft: bool)
      requires Linked()
      modifies this`smallIsLeft
      ensures smallIsLeft == isLeft
      ensures Linked() && Rest() == old(Rest()) && left.Rest() == old(left.Rest()) && right.Rest() == old(right.Rest())
    {
      hide Merged, Strict;
      smallIsLeft := isLeft;
      assert left.Valid() && right.Valid();
    }

    /** fix: lets the smaller child win. */
    method Fix()
      requires Linked()
      modifies right.Repr, this`rightNode, this`smallIsLeft
      ensures Linked() && Fixed()
      ensures Rest() == old(Rest()) && left.Rest() == old(left.Rest())
      ensures |right.Rest()| <= |old(right.Rest())|
      decreases height, 2
    {
      var bigger := if smallIsLeft then rightNode else leftNode;
      if !bigger.valid {
        return;
      }
      if !Small().valid {
        SetSmall(!smallIsLeft);
        return;
      }
      if leftNode.key == rightNode.key {
        SkipShared();
        SetSmall(true);
        return;
      }
      if Ahead(reverse, bigger.key, Small().key) {
        SetSmall(!smallIsLeft);
      }
    }

    /** Moving the winner takes the first item off the merge. */
    method MoveSmall()
      requires Linked() && Fixed() && Small().valid
      modifies Repr - {this}, this`leftNode, this`rightNode, this`smallIsLeft
      ensures Linked() && Fixed()
      ensures old(Rest()) != [] && Rest() == old(Rest())[1..]
      ensures |left.Rest()| + |right.Rest()| < old(|left.Rest()| + |right.Rest()|)
      decreases height, 3
    {
      if smallIsLeft {
        MoveLeft();
      } else {
        MoveRight();
      }
      assert Rest() == old(Rest())[1..];
      Fix();
    }

    /** Moves past the current item; at the end it stays there. */
    method Next()
      requires Valid()
      modifies Repr
      ensures Valid()
      ensures Rest() == Tail(old(Rest()))
      decreases height, 5
    {
      FirstOfRest();
      if IsNode() {
        NextNode();
      } else if pos < |items| {
        pos := pos + 1;
      }
    }

    method NextNode()
      requires Valid() && IsNode()
      modifies Repr
      ensures Valid()
      ensures Rest() == Tail(old(Rest()))
      decreases height, 4
    {
      SmallIsFirst();
      RestStrict();
      ghost var was, moved := Rest(), false;
      while Small().valid && Small().key == curKey
        invariant Linked() && Fixed()
        invariant !moved ==> Rest() == was && (Small().valid ==> Small().key == curKey)
        invariant moved ==> was != [] && Rest() == was[1..] && (Small().valid ==> Small().key != curKey)
        decreases |left.Rest()| + |right.Rest()|
      {
        MoveSmall();
        SmallIsFirst();
        moved := true;
      }
      SetCurrent();
    }

    method SetCurrent()
      requires Linked() && Fixed()
      modifies this`curKey
      ensures Valid() && Rest() == old(Rest())
    {
      hide Merged, Strict;
      curKey := Small().key;
      assert left.Valid() && right.Valid();
    }

    /** Both children stand somewhere new: cache where, let the winner win, note its key. */
    method Join()
      requires Built() && IsNode() && left.Valid() && right.Valid()
      modifies Repr
      ensures Valid() && Rest() == Merged(reverse, old(left.Rest()), old(right.Rest()))
      decreases height, 4
    {
      CacheChildren();
      Fix();
      SetCurrent();
    }

    method CacheChildren()
      requires Built() && IsNode() && left.Valid() && right.Valid()
      modifies this`leftNode, this`rightNode
      ensures Linked() && left.Rest() == old(left.Rest()) && right.Rest() == old(right.Rest())
    {
      hide Merged, Strict;
      var l := SetKey(left, leftNode);
      var r := SetKey(right, rightNode);
      SetCaches(l, r);
    }

    method SetCaches(l: Cache, r: Cache)
      requires Built() && IsNode() && left.Valid() && right.Valid()
      requires Cached(l, left.Rest()) && Cached(r, right.Rest())
      modifies this`leftNode, this`rightNode
      ensures Linked() && left.Rest() == old(left.Rest()) && right.Rest() == old(right.Rest())
    {
      hide Merged, Strict;
      leftNode, rightNode := l, r;
    }

    /** Back to the first item. */
    method Rewind()
      requires Built()
      modifies Repr
      ensures Valid() && Rest() == all
      decreases height, 5
    {
      if !IsNode() {
        pos := 0;
        return;
      }
      left.Rewind();
      right.Rewind();
      assert left.Valid() && left.Rest() == left.all;
      Join();
    }

    /** On to the first item at or after `key` in the direction of the iteration. */
    method Seek(key: InternalKey)
      requires Built()
      modifies Repr
      ensures Valid() && Rest() == From(reverse, all, key)
      decreases height, 5
    {
      if !IsNode() {
        SeekLeaf(key);
        return;
      }
      left.Seek(key);
      right.Seek(key);
      assert left.Valid() && left.Rest() == From(reverse, left.all, key);
      FromMerged(reverse, left.all, right.all, key);
      Join();
    }

    method SeekLeaf(key: InternalKey)
      requires Built() && !IsNode()
      modifies this`pos
      ensures Valid() && Rest() == From(reverse, all, key)
    {
      pos := 0;
      while pos < |items| && Ahead(reverse, items[pos].key, key)
        invariant pos <= |items| && From(reverse, items[pos..], key) == From(reverse, all, key)
      {
        assert items[pos..][1..] == items[pos + 1..];
        pos := pos + 1;
      }
    }
  }

  // ---------- The tree ----------

  ghost predicate Separate(iters: seq<Iter>, reverse: bool) {
    && (forall i | 0 <= i < |iters| :: iters[i].Built() && iters[i].reverse == reverse)
    && forall i, j | 0 <= i < j < |iters| :: iters[i].Repr !! iters[j].Repr
  }

  ghost function Footprint(iters: seq<Iter>): set<object> {
    set i, o | 0 <= i < |iters| && o in iters[i].Repr :: o
  }

  ghost function Lists(iters: seq<Iter>): (lists: seq<seq<Item>>)
    ensures |lists| == |iters| && forall i | 0 <= i < |iters| :: lists[i] == iters[i].all
  {
    seq(|iters|, i requires 0 <= i < |iters| => iters[i].all)
  }

  lemma OneMoreLeaf(iters: seq<Iter>, leaf: Iter)
    ensures Footprint(iters + [leaf]) == Footprint(iters) + leaf.Repr
  {
    assert forall i | 0 <= i < |iters| :: (iters + [leaf])[i] == iters[i];
    assert (iters + [leaf])[|iters|] == leaf;
  }

  /** An iterator over each list. */
  method Leaves(lists: seq<seq<Item>>, reverse: bool) returns (iters: seq<Iter>)
    requires forall i | 0 <= i < |lists| :: Strict(reverse, lists[i])
    ensures Separate(iters, reverse) && Lists(iters) == lists && fresh(Footprint(iters))
  {
    hide Strict;
    iters := [];
    for i := 0 to |lists|
      invariant Separate(iters, reverse) && Lists(iters) == lists[..i] && fresh(Footprint(iters))
    {
      var leaf := new Iter.Leaf(lists[i], reverse);
      assert lists[..i + 1] == lists[..i] + [lists[i]];
      OneMoreLeaf(iters, leaf);
      iters := iters + [leaf];
    }
    assert lists[..|lists|] == lists;
  }

  /** NewMergeIterator: a tree halved at each node. */
  method NewMergeIterator(iters: seq<Iter>, reverse: bool) returns (mi: Iter?)
    requires Separate(iters, reverse)
    ensures mi == null <==> iters == []
    ensures mi != null ==> mi.Built() && mi.reverse == reverse && fresh(mi.Repr - Footprint(iters))
    ensures mi != null ==> mi.all == MergedAll(reverse, Lists(iters))
    decreases |iters|
  {
    if |iters| == 0 {
      return null;
    }
    if |iters| == 1 {
      return iters[0];
    }
    var mid := |iters| / 2;
    var l := NewMergeIterator(iters[..mid], reverse);
    var r := NewMergeIterator(iters[mid..], reverse);
    assert Lists(iters)[..mid] == Lists(iters[..mid]) && Lists(iters)[mid..] == Lists(iters[mid..]);
    SplitFootprint(iters, mid);
    mi := new Iter.Node(l, r, reverse);
  }

  lemma SplitFootprint(iters: seq<Iter>, mid: nat)
    requires mid <= |iters| && forall i, j | 0 <= i < j < |iters| :: iters[i].Repr !! iters[j].Repr
    ensures Footprint(iters) == Footprint(iters[..mid]) + Footprint(iters[mid..])
    ensures Footprint(iters[..mid]) !! Footprint(iters[mid..])
  {
    forall o | o in Footprint(iters) ensures o in Footprint(iters[..mid]) + Footprint(iters[mid..]) {
      var i :| 0 <= i < |iters| && o in iters[i].Repr;
      assert if i < mid then iters[..mid][i] == iters[i] else iters[mid..][i - mid] == iters[i];
    }
  }

  /** The current item, and on to the next. */
  method Take(mi: Iter) returns (item: Item)
    requires mi.Valid() && mi.IsValid()
    modifies mi.Repr
    ensures mi.Valid() && old(mi.Rest()) == [item] + mi.Rest()
  {
    item := mi.Value();
    mi.Next();
  }

  lemma Regroup(a: seq<Item>, x: Item, b: seq<Item>)
    ensures a + ([x] + b) == (a + [x]) + b
  {
  }

  /** A full pass over a tree. */
  method Drain(mi: Iter) returns (out: seq<Item>)
    requires mi.Built()
    modifies mi.Repr
    ensures out == mi.all
  {
    mi.Rewind();
    out := [];
    while mi.IsValid()
      invariant mi.Valid() && out + mi.Rest() == mi.all
      decreases |mi.Rest()|
    {
      var item := Take(mi);
      Regroup(out, item, mi.Rest());
      out := out + [item];
    }
    mi.FirstOfRest();
  }
}
