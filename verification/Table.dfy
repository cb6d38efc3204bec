/** table/builder.go and table/iterator.go: entries packed into blocks, each key without what it
    shares with the first key of its block, and read back in any order. */
module Table {
  import opened Keys

  const HEADER_SIZE: nat := 4
  const MAX_U16: nat := 0xFFFF

  datatype Item = Item(key: Bytes, value: Bytes)

  /** Keys carry a timestamp and fit the 16-bit lengths of the entry header. */
  predicate ItemOk(it: Item) {
    8 <= |it.key| <= MAX_U16
  }

  predicate ItemsOk(items: seq<Item>) {
    forall i | 0 <= i < |items| :: ItemOk(items[i])
  }

  // ---------- Entries of a block ----------

  function U16(x: nat): (b: Bytes)
    requires x <= MAX_U16
    ensures |b| == 2
  {
    [x % 256, x / 256]
  }

  function FromU16(b: Bytes): nat
    requires |b| >= 2
  {
    var (lo: int, hi: int) := (b[0], b[1]);
    lo + 256 * hi
  }

  /** The length of the longest common prefix. */
  function Overlap(a: Bytes, b: Bytes): (n: nat)
    ensures n <= |a| && n <= |b| && a[..n] == b[..n]
    ensures n < |a| && n < |b| ==> a[n] != b[n]
  {
    if a == [] || b == [] || a[0] != b[0] then 0
    else
      var n := 1 + Overlap(a[1..], b[1..]);
      assert a[..n] == [a[0]] + a[1..][..n - 1] && b[..n] == [b[0]] + b[1..][..n - 1];
      n
  }

  lemma OverlapIs(a: Bytes, b: Bytes, n: nat)
    requires n <= |a| && n <= |b| && a[..n] == b[..n] && (n < |a| && n < |b| ==> a[n] != b[n])
    ensures Overlap(a, b) == n
  {
    SameAt(a, b, n);
    SameAt(a, b, Overlap(a, b));
  }

  lemma SameAt(a: Bytes, b: Bytes, n: nat)
    requires n <= |a| && n <= |b| && a[..n] == b[..n]
    ensures forall i | 0 <= i < n :: a[i] == b[i]
  {
    forall i | 0 <= i < n ensures a[i] == b[i] {
      assert a[i] == a[..n][i] && b[i] == b[..n][i];
    }
  }

  /** keyDiff: what of the new key is not shared with the base key. */
  method KeyDiff(newKey: Bytes, baseKey: Bytes) returns (diff: Bytes)
    ensures diff == newKey[Overlap(newKey, baseKey)..]
    ensures var n := |newKey| - |diff|;
            && 0 <= n <= |baseKey| && newKey == baseKey[..n] + diff
            && (n < |newKey| && n < |baseKey| ==> newKey[n] != baseKey[n])
  {
    var i := 0;
    while i < |newKey| && i < |baseKey| && newKey[i] == baseKey[i]
      invariant i <= |newKey| && i <= |baseKey| && newKey[..i] == baseKey[..i]
    {
      i := i + 1;
    }
    OverlapIs(newKey, baseKey, i);
    diff := newKey[i..];
  }

  function Entry(overlap: nat, diff: Bytes, value: Bytes): Bytes
    requires overlap <= MAX_U16 && |diff| <= MAX_U16
  {
    U16(overlap) + U16(|diff|) + diff + value
  }

  /** How much of its key the entry at position `i` leaves out: the first one nothing. */
  function SharedAt(items: seq<Item>, i: nat): (n: nat)
    requires i < |items| && ItemsOk(items)
    ensures n <= |items[i].key| && n <= |items[0].key| && items[i].key[..n] == items[0].key[..n]
  {
    if i == 0 then 0 else Overlap(items[i].key, items[0].key)
  }

  function EntryAt(items: seq<Item>, i: nat): Bytes
    requires i < |items| && ItemsOk(items)
  {
    var n := SharedAt(items, i);
    Entry(n, items[i].key[n..], items[i].value)
  }

  /** The first `n` entries of a block. */
  function Packed(items: seq<Item>, n: nat): Bytes
    requires n <= |items| && ItemsOk(items)
  {
    if n == 0 then [] else Packed(items, n - 1) + EntryAt(items, n - 1)
  }

  /** What is read of a block: its entries, and where each begins. */
  datatype Block = Block(data: Bytes, offsets: seq<nat>)

  ghost predicate Holds(b: Block, items: seq<Item>) {
    && ItemsOk(items) && |b.offsets| == |items|
    && b.data == Packed(items, |items|)
    && forall i | 0 <= i < |items| :: b.offsets[i] == |Packed(items, i)|
  }

  /** What follows does not change the entries before it. */
  lemma {:induction false} PackedPrefix(items: seq<Item>, more: seq<Item>, n: nat)
    requires n <= |items| && items <= more && ItemsOk(more)
    ensures ItemsOk(items) && Packed(items, n) == Packed(more, n)
  {
    assert forall i | 0 <= i < |items| :: items[i] == more[i];
    if n > 0 {
      PackedPrefix(items, more, n - 1);
    }
  }

  lemma {:induction false} PackedSlice(items: seq<Item>, i: nat, n: nat)
    requires i < n <= |items| && ItemsOk(items)
    ensures |Packed(items, i)| <= |Packed(items, i + 1)| <= |Packed(items, n)|
    ensures Packed(items, n)[|Packed(items, i)|..|Packed(items, i + 1)|] == EntryAt(items, i)
    decreases n
  {
    hide EntryAt;
    var front, last := Packed(items, n - 1), EntryAt(items, n - 1);
    assert Packed(items, n) == front + last;
    if i < n - 1 {
      PackedSlice(items, i, n - 1);
      assert (front + last)[|Packed(items, i)|..|Packed(items, i + 1)|] == front[|Packed(items, i)|..|Packed(items, i + 1)|];
    } else {
      assert (front + last)[|front|..|front + last|] == last;
    }
  }

  /** The entry at position `i` lies between its offset and the next one, or the end. */
  lemma SliceAt(b: Block, items: seq<Item>, i: nat)
    requires Holds(b, items) && i < |items|
    ensures var end := if i + 1 == |items| then |b.data| else b.offsets[i + 1];
            b.offsets[i] <= end <= |b.data| && b.data[b.offsets[i]..end] == EntryAt(items, i)
  {
    hide EntryAt;
    PackedSlice(items, i, |items|);
  }

  lemma EntryParts(overlap: nat, diff: Bytes, value: Bytes)
    requires overlap <= MAX_U16 && |diff| <= MAX_U16
    ensures var e := Entry(overlap, diff, value);
            && |e| >= HEADER_SIZE + |diff| && FromU16(e) == overlap && FromU16(e[2..]) == |diff|
            && e[HEADER_SIZE..HEADER_SIZE + |diff|] == diff && e[HEADER_SIZE + |diff|..] == value
  {
    var e := Entry(overlap, diff, value);
    assert e[0] == U16(overlap)[0] && e[1] == U16(overlap)[1];
    assert e[2..][0] == U16(|diff|)[0] && e[2..][1] == U16(|diff|)[1];
  }

  // ---------- Order of keys ----------

  predicate Less(a: Bytes, b: Bytes)
    requires |a| >= 8 && |b| >= 8
  {
    CompareKeys(a, b) < 0
  }

  lemma SameParts(a: Bytes, b: Bytes)
    requires |a| >= 8 && |b| >= 8
    ensures a == b <==> a[..|a| - 8] == b[..|b| - 8] && a[|a| - 8..] == b[|b| - 8..]
  {
    assert a == a[..|a| - 8] + a[|a| - 8..] && b == b[..|b| - 8] + b[|b| - 8..];
  }

  lemma Trichotomy(a: Bytes, b: Bytes)
    requires |a| >= 8 && |b| >= 8
    ensures CompareKeys(a, b) == 0 <==> a == b
    ensures CompareKeys(a, b) == -CompareKeys(b, a)
  {
    SameParts(a, b);
    CompareAntisymmetric(a[..|a| - 8], b[..|b| - 8]);
    CompareAntisymmetric(a[|a| - 8..], b[|b| - 8..]);
  }

  lemma LessTransitive(a: Bytes, b: Bytes, c: Bytes)
    requires |a| >= 8 && |b| >= 8 && |c| >= 8 && Less(a, b) && Less(b, c)
    ensures Less(a, c)
  {
    var (a1, b1, c1) := (a[..|a| - 8], b[..|b| - 8], c[..|c| - 8]);
    var (a2, b2, c2) := (a[|a| - 8..], b[|b| - 8..], c[|c| - 8..]);
    if a1 != b1 && b1 != c1 {
      CompareTransitive(a1, b1, c1);
    } else if a1 == b1 && b1 == c1 {
      CompareTransitive(a2, b2, c2);
    }
  }

  ghost predicate Sorted(items: seq<Item>) {
    ItemsOk(items) && forall i, j | 0 <= i < j < |items| :: Less(items[i].key, items[j].key)
  }

  /** The number of entries before `key`: where the first entry at or after it is. */
  function FirstFrom(items: seq<Item>, key: Bytes): (n: nat)
    requires ItemsOk(items) && |key| >= 8
    ensures n <= |items|
  {
    if items == [] || !Less(items[0].key, key) then 0 else 1 + FirstFrom(items[1..], key)
  }

  /** In a sorted list all entries before that place are below the key and all others are not. */
  lemma {:induction false} FirstFromSplits(items: seq<Item>, key: Bytes)
    requires Sorted(items) && |key| >= 8
    ensures forall i | 0 <= i < |items| :: Less(items[i].key, key) <==> i < FirstFrom(items, key)
  {
    if items != [] {
      var rest := items[1..];
      assert forall i | 0 <= i < |rest| :: rest[i] == items[i + 1];
      FirstFromSplits(rest, key);
      forall i | 0 <= i < |items| ensures Less(items[i].key, key) <==> i < FirstFrom(items, key) {
        if i > 0 {
          assert items[i] == rest[i - 1];
          if Less(items[i].key, key) {
            LessTransitive(items[0].key, items[i].key, key);
          }
        }
      }
    }
  }

  lemma FirstFromIs(items: seq<Item>, key: Bytes, n: nat)
    requires Sorted(items) && |key| >= 8 && n <= |items|
    requires n > 0 ==> Less(items[n - 1].key, key)
    requires n < |items| ==> !Less(items[n].key, key)
    ensures FirstFrom(items, key) == n
  {
    FirstFromSplits(items, key);
  }

  // ---------- Block iterator ----------

  class BlockIterator {
    var data: Bytes
    var offsets: seq<nat>
    var idx: int
    var eof: bool
    var baseKey: Bytes
    var key: Bytes
    var val: Bytes
    var prevOverlap: nat
    /** The entries of the current block. */
    ghost var items: seq<Item>

    constructor ()
      ensures Valid() && items == [] && data == []
    {
      data, offsets, idx, eof, baseKey, key, val, prevOverlap, items := [], [], 0, false, [], [], [], 0, [];
    }

    /** The base key is known or still to be read, and as much of the current key as the last entry
        shared is its beginning. */
    ghost predicate KeysMatch()
      reads this
    {
      && (baseKey == [] || (items != [] && baseKey == items[0].key))
      && prevOverlap <= |key| && prevOverlap <= (if items == [] then 0 else |items[0].key|)
      && (items != [] ==> key[..prevOverlap] == items[0].key[..prevOverlap])
    }

    ghost predicate Valid()
      reads this
    {
      Holds(Block(data, offsets), items) && KeysMatch()
    }

    /** The iterator shows the entry at `idx`. */
    ghost predicate Shows()
      reads this
    {
      !eof && 0 <= idx < |items| && key == items[idx].key && val == items[idx].value
    }

    method SetBlock(b: Block, ghost held: seq<Item>)
      requires Holds(b, held)
      modifies this
      ensures Valid() && items == held && data == b.data && offsets == b.offsets && key == []
    {
      eof, idx, baseKey, prevOverlap, key, val := false, 0, [], 0, [], [];
      data, offsets, items := b.data, b.offsets, held;
    }

    /** setIdx: the key is rebuilt from what the previous one and this one share with the base key,
        whichever entries were visited before, in any order. */
    method SetIdx(i: int)
      requires Valid()
      modifies this`idx, this`eof, this`baseKey, this`key, this`val, this`prevOverlap
      ensures Valid() && idx == i && (eof <==> !(0 <= i < |items|))
      ensures !eof ==> Shows()
      ensures eof ==> key == old(key)
    {
      hide Holds, SharedAt, ItemsOk;
      OffsetsCount(Block(data, offsets), items);
      idx := i;
      if i >= |offsets| || i < 0 {
        eof := true;
        return;
      }
      eof := false;
      SetBase();
      var overlap, diffKey, value := ReadAt(i);
      EntryRead(items[i].key, baseKey, overlap);
      key := Rebuild(key, baseKey, prevOverlap, overlap, diffKey);
      prevOverlap := overlap;
      val := value;
    }

    method SetBase()
      requires Valid() && items != []
      modifies this`baseKey
      ensures Valid() && baseKey == items[0].key
    {
      hide Holds, FromU16;
      ReadBase(Block(data, offsets), items);
      if |baseKey| == 0 {
        baseKey := data[HEADER_SIZE..HEADER_SIZE + FromU16(data[2..])];
      }
    }

    /** The header, the rest of the key and the value of an entry. */
    method ReadAt(i: nat) returns (overlap: nat, diffKey: Bytes, value: Bytes)
      requires Valid() && i < |items|
      ensures ItemsOk(items) && overlap == SharedAt(items, i) && diffKey == items[i].key[overlap..] && value == items[i].value
    {
      hide Holds, SharedAt, FromU16;
      ReadEntry(Block(data, offsets), items, i);
      var startOffset, endOffset := offsets[i], if i + 1 == |offsets| then |data| else offsets[i + 1];
      var entryData := data[startOffset..endOffset];
      overlap := FromU16(entryData);
      var diff := FromU16(entryData[2..]);
      diffKey, value := entryData[HEADER_SIZE..HEADER_SIZE + diff], entryData[HEADER_SIZE + diff..];
    }

    /** The key of an entry in place of the previous one: only the part of the base key that was not
        yet there is copied. */
    static method Rebuild(was: Bytes, base: Bytes, prev: nat, overlap: nat, diffKey: Bytes) returns (key: Bytes)
      requires prev <= |was| && prev <= |base| && overlap <= |base| && was[..prev] == base[..prev]
      ensures key == base[..overlap] + diffKey && key[..overlap] == base[..overlap]
    {
      key := was;
      if overlap > prev {
        key := key[..prev] + base[prev..overlap];
      } else {
        assert key[..overlap] == key[..prev][..overlap] && base[..overlap] == base[..prev][..overlap];
      }
      assert key[..overlap] == base[..overlap];
      key := key[..overlap] + diffKey;
    }

    /** seek: binary search by moving the iterator itself, then one move to the place found. */
    method Seek(target: Bytes)
      requires Valid() && Sorted(items) && |target| >= 8 && key == []
      modifies this`idx, this`eof, this`baseKey, this`key, this`val, this`prevOverlap
      ensures Valid() && idx == FirstFrom(items, target) && (eof <==> idx == |items|) && (!eof ==> Shows())
      ensures eof ==> key != target
    {
      hide Holds, Less;
      eof := false;
      var i, j := 0, |offsets|;
      OffsetsCount(Block(data, offsets), items);
      while i < j
        invariant Valid() && 0 <= i <= j <= |items|
        invariant i > 0 ==> Less(items[i - 1].key, target)
        invariant j < |items| ==> !Less(items[j].key, target)
        invariant key == [] || exists x :: 0 <= x < |items| && key == items[x].key
      {
        var h := (i + j) / 2;
        SetIdx(h);
        if Less(key, target) {
          i := h + 1;
        } else {
          j := h;
        }
      }
      FirstFromIs(items, target, i);
      FirstFromSplits(items, target);
      SetIdx(i);
      NotBelowItself(target);
    }

    /** Only the data is forgotten. */
    method Drop()
      modifies this`data
      ensures data == []
    {
      data := [];
    }
  }

  /** The entry at position `i`: how much it shares, the rest of its key and its value. */
  lemma ReadEntry(b: Block, items: seq<Item>, i: nat)
    requires Holds(b, items) && i < |items|
    ensures |b.offsets| == |items| && ItemsOk(items)
    ensures var end := if i + 1 == |items| then |b.data| else b.offsets[i + 1];
            var n := SharedAt(items, i);
            var diff := |items[i].key| - n;
            && b.offsets[i] <= end <= |b.data|
            && var e := b.data[b.offsets[i]..end];
               && |e| >= HEADER_SIZE + diff && FromU16(e) == n && FromU16(e[2..]) == diff
               && e[HEADER_SIZE..HEADER_SIZE + diff] == items[i].key[n..] && e[HEADER_SIZE + diff..] == items[i].value
  {
    hide FromU16, Entry, SharedAt;
    SliceAt(b, items, i);
    var n := SharedAt(items, i);
    EntryParts(n, items[i].key[n..], items[i].value);
  }

  lemma EntryRead(key: Bytes, base: Bytes, n: nat)
    requires n <= |key| && n <= |base| && key[..n] == base[..n]
    ensures base[..n] + key[n..] == key
  {
    assert key == key[..n] + key[n..];
  }

  lemma NotBelowItself(key: Bytes)
    requires |key| >= 8
    ensures !Less(key, key)
  {
  }

  lemma OffsetsCount(b: Block, items: seq<Item>)
    requires Holds(b, items)
    ensures |b.offsets| == |items| && (items != [] ==> b.data != [])
  {
    if items != [] {
      assert |Packed(items, |items|)| >= |EntryAt(items, |items| - 1)| >= HEADER_SIZE;
    }
  }

  lemma ReadBase(b: Block, items: seq<Item>)
    requires Holds(b, items) && items != []
    ensures |b.data| >= HEADER_SIZE && FromU16(b.data[2..]) == |items[0].key|
    ensures |b.data| >= HEADER_SIZE + |items[0].key| && b.data[HEADER_SIZE..HEADER_SIZE + |items[0].key|] == items[0].key
  {
    hide EntryAt;
    SliceAt(b, items, 0);
    FirstEntry(items);
    var e := EntryAt(items, 0);
    EntryParts(0, items[0].key, items[0].value);
    assert b.data[..|e|] == e;
    assert b.data[2..][0] == e[2..][0] && b.data[2..][1] == e[2..][1];
  }

  lemma FirstEntry(items: seq<Item>)
    requires ItemsOk(items) && items != []
    ensures EntryAt(items, 0) == Entry(0, items[0].key, items[0].value)
  {
    assert items[0].key[0..] == items[0].key;
  }

  // ---------- A table of blocks ----------

  function Flat(all: seq<seq<Item>>): seq<Item> {
    if all == [] then [] else Flat(all[..|all| - 1]) + all[|all| - 1]
  }

  /** The number of entries in the first `b` blocks. */
  function Start(all: seq<seq<Item>>, b: nat): nat
    requires b <= |all|
  {
    |Flat(all[..b])|
  }

  lemma {:induction false} FlatSplits(all: seq<seq<Item>>, b: nat)
    requires b <= |all|
    ensures Flat(all[..b]) <= Flat(all)
    decreases |all|
  {
    if b == |all| {
      assert all[..b] == all;
    } else {
      FlatSplits(all[..|all| - 1], b);
      assert all[..|all| - 1][..b] == all[..b];
    }
  }

  /** Where the entries of one block are in the whole table. */
  lemma FlatAt(all: seq<seq<Item>>, b: nat)
    requires b < |all|
    ensures Start(all, b + 1) == Start(all, b) + |all[b]| <= |Flat(all)|
    ensures forall i | 0 <= i < |all[b]| :: Flat(all)[Start(all, b) + i] == all[b][i]
  {
    FlatSplits(all, b + 1);
    assert all[..b + 1][..b] == all[..b];
  }

  lemma StartEnds(all: seq<seq<Item>>)
    ensures Start(all, 0) == 0 && Start(all, |all|) == |Flat(all)|
  {
    assert all[..|all|] == all;
  }

  ghost predicate PartsOk(blocks: seq<Block>, firsts: seq<Bytes>, all: seq<seq<Item>>) {
    && |blocks| == |firsts| == |all|
    && forall b | 0 <= b < |all| :: Holds(blocks[b], all[b]) && all[b] != [] && firsts[b] == all[b][0].key
  }

  lemma BlockSorted(all: seq<seq<Item>>, b: nat)
    requires Sorted(Flat(all)) && b < |all|
    ensures Sorted(all[b])
  {
    hide Less, Sorted, Flat;
    FlatAt(all, b);
    var items, flat, start := all[b], Flat(all), Start(all, b);
    StretchSorted(flat, start, items);
  }

  lemma StretchSorted(flat: seq<Item>, start: nat, items: seq<Item>)
    requires Sorted(flat) && start + |items| <= |flat| && forall i | 0 <= i < |items| :: flat[start + i] == items[i]
    ensures Sorted(items)
  {
    hide Less;
    forall i | 0 <= i < |items| ensures ItemOk(items[i]) {
      assert ItemOk(flat[start + i]);
    }
    forall i, j | 0 <= i < j < |items| ensures Less(items[i].key, items[j].key) {
      assert Less(flat[start + i].key, flat[start + j].key);
    }
  }

  // ---------- Builder ----------

  lemma BaseOf(b: Block, items: seq<Item>, baseKey: Bytes)
    requires Holds(b, items) && baseKey == if items == [] then [] else items[0].key
    ensures baseKey == [] <==> items == []
    ensures ItemsOk(items) && |b.offsets| == |items|
    ensures items == [] ==> b.data == []
  {
    assert items != [] ==> ItemOk(items[0]);
  }

  lemma NextEntry(items: seq<Item>, it: Item, diff: Bytes)
    requires ItemsOk(items + [it]) && |diff| <= |it.key|
    requires diff == if items == [] then it.key else it.key[Overlap(it.key, items[0].key)..]
    ensures |it.key| - |diff| <= MAX_U16 && |diff| <= MAX_U16
    ensures Entry(|it.key| - |diff|, diff, it.value) == EntryAt(items + [it], |items|)
    ensures |EntryAt(items + [it], |items|)| <= 4 + |it.key| + |it.value|
  {
    var more := items + [it];
    assert more[|items|] == it && ItemOk(it);
    assert it.key[0..] == it.key;
    assert items != [] ==> more[0] == items[0];
  }

  class Builder {
    const blockSize: nat
    var data: Bytes
    var offsets: seq<nat>
    var baseKey: Bytes
    var blocks: seq<Block>
    var firsts: seq<Bytes>
    ghost var done: seq<seq<Item>>
    ghost var cur: seq<Item>

    constructor (blockSize: nat)
      ensures Valid() && Added() == []
    {
      this.blockSize := blockSize;
      data, offsets, baseKey, blocks, firsts, done, cur := [], [], [], [], [], [], [];
    }

    ghost predicate Valid()
      reads this
    {
      && Holds(Block(data, offsets), cur) && baseKey == (if cur == [] then [] else cur[0].key)
      && PartsOk(blocks, firsts, done)
    }

    ghost function Added(): seq<Item>
      reads this
    {
      Flat(done) + cur
    }

    /** addHelper: the entry's header, what its key does not share with the first one, its value. */
    method AddHelper(key: Bytes, value: Bytes)
      requires Valid() && ItemOk(Item(key, value))
      modifies this`data, this`offsets, this`baseKey, this`cur
      ensures Valid() && cur == old(cur) + [Item(key, value)]
      ensures |offsets| == old(|offsets|) + 1 && |data| <= old(|data|) + 4 + |key| + |value|
    {
      hide Holds, Entry, EntryAt, PartsOk, Overlap;
      ghost var it := Item(key, value);
      BaseOf(Block(data, offsets), cur, baseKey);
      var diffKey;
      if |baseKey| == 0 {
        baseKey := key;
        diffKey := key;
      } else {
        diffKey := KeyDiff(key, baseKey);
      }
      offsets := offsets + [|data|];
      EntryAdded(Block(data, old(offsets)), cur, it);
      NextEntry(cur, it, diffKey);
      data := data + Entry(|key| - |diffKey|, diffKey, value);
      cur := cur + [it];
    }

    /** Whether another entry would make the block larger than configured, as estimated. */
    function ShouldFinishBlock(key: Bytes, value: Bytes): bool
      reads this
    {
      offsets != [] && |data| + 6 + |key| + |value| + ((|offsets| + 1) * 4 + 4 + 8 + 4) > blockSize
    }

    method FinishBlock()
      requires Valid()
      modifies this
      ensures Valid() && cur == [] && Added() == old(Added())
      ensures data == [] && offsets == []
      ensures blocks == if old(offsets) == [] then old(blocks) else old(blocks) + [Block(old(data), old(offsets))]
    {
      hide Holds;
      EmptyHolds();
      OffsetsCount(Block(data, offsets), cur);
      BaseOf(Block(data, offsets), cur, baseKey);
      if |offsets| == 0 {
        return;
      }
      assert (done + [cur])[..|done|] == done;
      blocks, firsts, done := blocks + [Block(data, offsets)], firsts + [baseKey], done + [cur];
      data, offsets, baseKey, cur := [], [], [], [];
    }

    /** A block of more than one entry is, with its list of offsets, no larger than configured. */
    static predicate InSize(b: Block, blockSize: nat) {
      |b.offsets| > 1 ==> |b.data| + 4 * |b.offsets| + 16 <= blockSize
    }

    predicate AllInSize()
      reads this
    {
      InSize(Block(data, offsets), blockSize) && forall i | 0 <= i < |blocks| :: InSize(blocks[i], blockSize)
    }

    /** Add: a new block is begun exactly when the entry, as estimated, is too much for this one. */
    method Add(key: Bytes, value: Bytes)
      requires Valid() && ItemOk(Item(key, value))
      modifies this
      ensures Valid() && Added() == old(Added()) + [Item(key, value)]
      ensures old(AllInSize()) ==> AllInSize()
      ensures var full := old(offsets) != [] && old(|data|) + 6 + |key| + |value| + 4 * (old(|offsets|) + 1) + 16 > blockSize;
              blocks == if full then old(blocks) + [Block(old(data), old(offsets))] else old(blocks)
    {
      hide Holds, PartsOk;
      if ShouldFinishBlock(key, value) {
        FinishBlock();
      }
      AddHelper(key, value);
    }
  }

  lemma EmptyHolds()
    ensures Holds(Block([], []), [])
  {
  }

  lemma EntryAdded(b: Block, items: seq<Item>, it: Item)
    requires Holds(b, items) && ItemOk(it)
    ensures var more := items + [it];
            ItemsOk(more) && Holds(Block(b.data + EntryAt(more, |items|), b.offsets + [|b.data|]), more)
  {
    hide EntryAt;
    var more := items + [it];
    forall i | 0 <= i <= |items| ensures Packed(items, i) == Packed(more, i) {
      PackedPrefix(items, more, i);
    }
  }

  // ---------- Seeking in a table ----------

  /** The last entry at or before `key`. */
  function LastUpTo(items: seq<Item>, key: Bytes): (n: int)
    requires ItemsOk(items) && |key| >= 8
    ensures -1 <= n < |items|
  {
    var n := FirstFrom(items, key);
    if n < |items| && items[n].key == key then n else n - 1
  }

  /** The entries up to that place are those not above the key. */
  lemma LastUpToSplits(items: seq<Item>, key: Bytes)
    requires Sorted(items) && |key| >= 8
    ensures forall i | 0 <= i < |items| :: !Less(key, items[i].key) <==> i <= LastUpTo(items, key)
  {
    FirstFromSplits(items, key);
    var n := FirstFrom(items, key);
    forall i | 0 <= i < |items| ensures !Less(key, items[i].key) <==> i <= LastUpTo(items, key) {
      Trichotomy(items[i].key, key);
      if n < i {
        Trichotomy(items[n].key, key);
      }
    }
  }

  /** An entry found in a block that begins at or before the key, or in the first block, is the one
      to be found in the table; so is the end of the last block. */
  lemma FoundIn(all: seq<seq<Item>>, b: nat, key: Bytes)
    requires Sorted(Flat(all)) && b < |all| && |key| >= 8 && forall x | 0 <= x < |all| :: all[x] != []
    requires b == 0 || (ItemsOk(all[b]) && !Less(key, all[b][0].key))
    ensures ItemsOk(all[b])
    ensures FirstFrom(all[b], key) < |all[b]| || b == |all| - 1 ==> FirstFrom(Flat(all), key) == Start(all, b) + FirstFrom(all[b], key)
  {
    hide Less;
    BlockSorted(all, b);
    FirstFromSplits(all[b], key);
    if b > 0 && FirstFrom(all[b], key) == 0 {
      BlockSorted(all, b - 1);
      FlatAt(all, b - 1);
      FlatAt(all, b);
      NotBelowEither(all[b][0].key, key);
      var n := Start(all, b);
      assert Flat(all)[n] == all[b][0] && Flat(all)[n - 1] == all[b - 1][|all[b - 1]| - 1];
    }
    FoundAt(all, b, key);
  }

  lemma NotBelowEither(a: Bytes, b: Bytes)
    requires |a| >= 8 && |b| >= 8 && !Less(a, b) && !Less(b, a)
    ensures a == b
  {
    Trichotomy(a, b);
  }

  lemma FoundAt(all: seq<seq<Item>>, b: nat, key: Bytes)
    requires Sorted(Flat(all)) && b < |all| && |key| >= 8 && Sorted(all[b])
    requires b == 0 || FirstFrom(all[b], key) > 0 || (all[b - 1] != [] && ItemsOk(all[b - 1]) && Less(all[b - 1][|all[b - 1]| - 1].key, key))
    ensures FirstFrom(all[b], key) < |all[b]| || b == |all| - 1 ==> FirstFrom(Flat(all), key) == Start(all, b) + FirstFrom(all[b], key)
  {
    hide Less, Sorted, Flat, FirstFrom;
    SortedOk(Flat(all));
    SortedOk(all[b]);
    var local := FirstFrom(all[b], key);
    var n := Start(all, b) + local;
    FirstFromSplits(all[b], key);
    FlatAt(all, b);
    StartEnds(all);
    if local > 0 {
      assert Flat(all)[n - 1] == all[b][local - 1];
    } else if b > 0 {
      FlatAt(all, b - 1);
      assert Flat(all)[n - 1] == all[b - 1][|all[b - 1]| - 1];
    }
    if local < |all[b]| {
      assert Flat(all)[n] == all[b][local];
      FirstFromIs(Flat(all), key, n);
    } else if b == |all| - 1 {
      FirstFromIs(Flat(all), key, n);
    }
  }

  lemma SortedOk(items: seq<Item>)
    requires Sorted(items)
    ensures ItemsOk(items)
  {
  }

  /** Behind a block that is all below the key. */
  lemma FoundBehind(all: seq<seq<Item>>, b: nat, key: Bytes)
    requires Sorted(Flat(all)) && 0 < b < |all| && |key| >= 8 && forall x | 0 <= x < |all| :: all[x] != []
    requires ItemsOk(all[b - 1]) && FirstFrom(all[b - 1], key) == |all[b - 1]|
    ensures ItemsOk(all[b])
    ensures FirstFrom(all[b], key) < |all[b]| ==> FirstFrom(Flat(all), key) == Start(all, b) + FirstFrom(all[b], key)
  {
    BlockSorted(all, b - 1);
    BlockSorted(all, b);
    FirstFromSplits(all[b - 1], key);
    FoundAt(all, b, key);
  }

  lemma NotEmptyAt(all: seq<seq<Item>>, b: nat, key: Bytes)
    requires b < |all| && |key| >= 8 && ItemsOk(all[b]) && all[b] != [] && Less(key, all[b][0].key)
    ensures FirstFrom(all[b], key) == 0
  {
    Trichotomy(key, all[b][0].key);
  }

  // ---------- Table iterator ----------

  class Iterator {
    const blocks: seq<Block>
    const firsts: seq<Bytes>
    const bi: BlockIterator
    var bpos: int
    var eof: bool
    ghost const all: seq<seq<Item>>

    constructor (blocks: seq<Block>, firsts: seq<Bytes>, ghost all: seq<seq<Item>>)
      requires PartsOk(blocks, firsts, all)
      ensures Valid() && this.all == all && fresh(bi)
    {
      this.blocks, this.firsts, this.all := blocks, firsts, all;
      bi := new BlockIterator();
      bpos, eof := 0, false;
    }

    ghost predicate Valid()
      reads this, bi
    {
      PartsOk(blocks, firsts, all) && (bi.data != [] ==> Loaded())
    }

    ghost predicate Loaded()
      reads this, bi
    {
      0 <= bpos < |all| && bi.Valid() && bi.items == all[bpos]
    }

    /** The iterator shows entry number `g` of the table; -1 and the number of entries are the ends. */
    ghost predicate At(g: int)
      reads this, bi
    {
      if 0 <= g < |Flat(all)| then
        !eof && bi.data != [] && Loaded() && bi.Shows() && g == Start(all, bpos) + bi.idx
      else
        eof && (g == -1 || g == |Flat(all)|)
    }

    /** Behind the last entry, with the last block still loaded. */
    ghost predicate Past()
      reads this, bi
    {
      eof && bi.data != [] && Loaded() && bpos == |all| - 1 && bi.idx == |all[bpos]|
    }

    /** Shows entry `i` of block `b`. */
    method LoadAt(b: int, last: bool)
      requires Valid() && 0 <= b < |all|
      modifies this, bi
      ensures Valid() && bpos == b && At(if last then Start(all, b + 1) - 1 else Start(all, b))
    {
      hide Holds, Less;
      bpos := b;
      bi.SetBlock(blocks[b], all[b]);
      OffsetsCount(blocks[b], all[b]);
      bi.SetIdx(if last then |bi.offsets| - 1 else 0);
      eof := bi.eof;
      FlatAt(all, b);
    }

    method SeekToFirst()
      requires Valid()
      modifies this, bi
      ensures Valid() && At(0)
    {
      StartEnds(all);
      if |blocks| == 0 {
        eof := true;
        return;
      }
      LoadAt(0, false);
    }

    method SeekToLast()
      requires Valid()
      modifies this, bi
      ensures Valid() && At(|Flat(all)| - 1)
    {
      StartEnds(all);
      if |blocks| == 0 {
        eof := true;
        return;
      }
      LoadAt(|blocks| - 1, true);
    }

    /** One entry on, across the end of a block. */
    method Next(ghost g: int)
      requires Valid() && 0 <= g < |Flat(all)|
      requires if bi.data == [] then 0 <= bpos <= |all| && Start(all, bpos) == g + 1 else At(g)
      modifies this, bi
      ensures Valid() && At(g + 1)
      decreases |bi.data|
    {
      hide Holds;
      eof := false;
      StartEnds(all);
      if bpos >= |blocks| {
        eof := true;
        return;
      }
      FlatAt(all, bpos);
      if |bi.data| == 0 {
        LoadAt(bpos, false);
        return;
      }
      bi.SetIdx(bi.idx + 1);
      if bi.eof {
        bpos := bpos + 1;
        bi.Drop();
        Next(g);
      }
    }

    /** One entry back, across the beginning of a block. */
    method Prev(ghost g: int)
      requires Valid() && 0 <= g <= |Flat(all)|
      requires if bi.data == [] then -1 <= bpos < |all| && Start(all, bpos + 1) == g else if g == |Flat(all)| then Past() else At(g)
      modifies this, bi
      ensures Valid() && At(g - 1)
      decreases |bi.data|
    {
      hide Holds;
      eof := false;
      StartEnds(all);
      if bpos < 0 {
        eof := true;
        return;
      }
      FlatAt(all, bpos);
      if |bi.data| == 0 {
        LoadAt(bpos, true);
        return;
      }
      bi.SetIdx(bi.idx - 1);
      if bi.eof {
        bpos := bpos - 1;
        bi.Drop();
        Prev(g);
      }
    }

    method SeekHelper(b: int, key: Bytes)
      requires Valid() && 0 <= b < |all| && Sorted(Flat(all)) && |key| >= 8
      modifies this, bi
      ensures Valid() && bi.data != [] && Loaded() && bpos == b && ItemsOk(all[b])
      ensures bi.idx == FirstFrom(all[b], key) && (eof <==> bi.idx == |all[b]|) && (!eof ==> bi.Shows())
      ensures eof ==> bi.key != key
    {
      hide Holds, Less;
      bpos := b;
      bi.SetBlock(blocks[b], all[b]);
      OffsetsCount(blocks[b], all[b]);
      BlockSorted(all, b);
      bi.Seek(key);
      eof := bi.eof;
    }

    /** The first block whose first key is above `key`. */
    method FindBlock(key: Bytes) returns (i: nat)
      requires Valid() && Sorted(Flat(all)) && |key| >= 8
      ensures i <= |all| && FirstsOk()
      ensures i > 0 ==> !Less(key, firsts[i - 1])
      ensures i < |all| ==> Less(key, firsts[i])
    {
      hide Holds, Less;
      AllFirstsOk();
      i := 0;
      var j := |blocks|;
      while i < j
        invariant 0 <= i <= j <= |all|
        invariant i > 0 ==> !Less(key, firsts[i - 1])
        invariant j < |all| ==> Less(key, firsts[j])
      {
        var h := (i + j) / 2;
        if Less(key, firsts[h]) {
          j := h;
        } else {
          i := h + 1;
        }
      }
    }

    ghost predicate FirstsOk() {
      |firsts| == |all| && forall b | 0 <= b < |all| :: |firsts[b]| >= 8
    }

    lemma AllFirstsOk()
      requires PartsOk(blocks, firsts, all)
      ensures FirstsOk()
    {
    }

    /** seekFrom and seek: the first entry at or after `key`, or past the end. */
    method Seek(key: Bytes)
      requires Valid() && Sorted(Flat(all)) && all != [] && |key| >= 8
      modifies this, bi
      ensures Valid() && At(FirstFrom(Flat(all), key))
      ensures eof ==> Past() && bi.key != key
    {
      hide Holds, Less, Sorted;
      var idx := FindBlock(key);
      StartEnds(all);
      FlatAt(all, if idx == 0 then 0 else idx - 1);
      if idx == 0 {
        SeekHelper(0, key);
        FoundIn(all, 0, key);
        NotEmptyAt(all, 0, key);
        return;
      }
      SeekHelper(idx - 1, key);
      FoundIn(all, idx - 1, key);
      if eof {
        if idx == |blocks| {
          return;
        }
        FlatAt(all, idx);
        SeekHelper(idx, key);
        FoundBehind(all, idx, key);
        NotEmptyAt(all, idx, key);
      }
    }

    /** seekForPrev: the last entry at or before `key`, or before the beginning. */
    method SeekForPrev(key: Bytes)
      requires Valid() && Sorted(Flat(all)) && all != [] && |key| >= 8
      modifies this, bi
      ensures Valid() && At(LastUpTo(Flat(all), key))
    {
      hide Holds, Less, FirstFrom, Sorted, Flat, PartsOk;
      SortedOk(Flat(all));
      Seek(key);
      ghost var n := FirstFrom(Flat(all), key);
      if !eof {
        FlatAt(all, bpos);
      }
      if bi.key != key {
        Prev(n);
      }
    }
  }

  /** A scan from the first entry gives everything in the table, in order. */
  method ReadAll(it: Iterator) returns (items: seq<Item>)
    requires it.Valid()
    modifies it, it.bi
    ensures items == Flat(it.all)
  {
    hide Holds, Flat;
    items := [];
    it.SeekToFirst();
    while !it.eof
      invariant it.Valid() && |items| <= |Flat(it.all)| && it.At(|items|) && items == Flat(it.all)[..|items|]
      decreases |Flat(it.all)| - |items|
    {
      FlatAt(it.all, it.bpos);
      items := items + [Item(it.bi.key, it.bi.val)];
      it.Next(|items| - 1);
    }
  }

  /** What is added to a builder is what a scan of the finished table reads, whatever the size of
      its blocks. */
  method WriteAndRead(items: seq<Item>, blockSize: nat) returns (out: seq<Item>)
    requires ItemsOk(items)
    ensures out == items
  {
    hide Holds, PartsOk, Flat;
    var b := new Builder(blockSize);
    for i := 0 to |items|
      invariant b.Valid() && b.Added() == items[..i] && fresh(b)
    {
      assert items[..i + 1] == items[..i] + [Item(items[i].key, items[i].value)];
      b.Add(items[i].key, items[i].value);
    }
    b.FinishBlock();
    var it := new Iterator(b.blocks, b.firsts, b.done);
    out := ReadAll(it);
    assert items[..|items|] == items && Flat(b.done) + [] == Flat(b.done);
  }
}
