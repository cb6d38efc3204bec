/** Internal keys: a user key followed by eight bytes holding MaxUint64 - ts, big endian.
    Every other module works with the abstract `InternalKey`; `RankPreservesOrder` is the bridge
    from the byte layout to it. */
module Keys {
  type Byte = b: int | 0 <= b < 256
  type Bytes = seq<Byte>

  const MAX_TS: nat := 0xFFFF_FFFF_FFFF_FFFF
  type Timestamp = t: nat | t <= MAX_TS

  /** bytes.Compare. */
  function Compare(a: Bytes, b: Bytes): (c: int)
    ensures c == -1 || c == 0 || c == 1
    ensures c == 0 <==> a == b
  {
    if a == [] then (if b == [] then 0 else -1)
    else if b == [] then 1
    else if a[0] != b[0] then (if a[0] < b[0] then -1 else 1)
    else
      assert a == [a[0]] + a[1..] && b == [b[0]] + b[1..];
      Compare(a[1..], b[1..])
  }

  function Power256(n: nat): (p: nat)
    ensures p >= 1
  {
    if n == 0 then 1 else 256 * Power256(n - 1)
  }

  /** Big-endian encoding of `x` in `n` bytes. */
  function PutBigEndian(x: nat, n: nat): (s: Bytes)
    requires x < Power256(n)
    ensures |s| == n
  {
    if n == 0 then [] else PutBigEndian(x / 256, n - 1) + [x % 256]
  }

  function BigEndian(s: Bytes): (x: nat)
    ensures x < Power256(|s|)
  {
    if s == [] then 0 else 256 * BigEndian(s[..|s| - 1]) + s[|s| - 1]
  }

  lemma EightBytes()
    ensures Power256(8) == MAX_TS + 1
  {
    assert Power256(4) == 0x1_0000_0000;
    assert Power256(6) == 256 * Power256(5) == 0x1_0000_0000_0000;
  }

  function KeyWithTs(key: Bytes, ts: Timestamp): (out: Bytes)
    ensures |out| == |key| + 8
  {
    EightBytes();
    key + PutBigEndian(MAX_TS - ts, 8)
  }

  function ParseTs(key: Bytes): Timestamp
  {
    if |key| <= 8 then 0
    else
      EightBytes();
      MAX_TS - BigEndian(key[|key| - 8..])
  }

  /** All internal keys carry a timestamp, so the slice below is always in range. */
  function ParseKey(key: Bytes): Bytes
    requires |key| >= 8
  {
    key[..|key| - 8]
  }

  function CompareKeys(a: Bytes, b: Bytes): int
    requires |a| >= 8 && |b| >= 8
  {
    var c := Compare(a[..|a| - 8], b[..|b| - 8]);
    if c != 0 then c else Compare(a[|a| - 8..], b[|b| - 8..])
  }

  predicate SameKey(a: Bytes, b: Bytes)
    requires |a| >= 8 && |b| >= 8
  {
    |a| == |b| && ParseKey(a) == ParseKey(b)
  }

  lemma {:induction false} BigEndianRoundTrip(x: nat, n: nat)
    requires x < Power256(n)
    ensures BigEndian(PutBigEndian(x, n)) == x
  {
    if n > 0 {
      var s := PutBigEndian(x, n);
      assert s[..n - 1] == PutBigEndian(x / 256, n - 1);
      BigEndianRoundTrip(x / 256, n - 1);
    }
  }

  lemma {:induction false} CompareAppend(a: Bytes, b: Bytes, x: Byte, y: Byte)
    requires |a| == |b|
    ensures Compare(a + [x], b + [y]) ==
            if a != b then Compare(a, b) else if x < y then -1 else if x == y then 0 else 1
  {
    if a == [] {
      assert a + [x] == [x] && b + [y] == [y];
    } else {
      assert (a + [x])[1..] == a[1..] + [x] && (b + [y])[1..] == b[1..] + [y];
      assert a == [a[0]] + a[1..] && b == [b[0]] + b[1..];
      CompareAppend(a[1..], b[1..], x, y);
    }
  }

  /** Fixed-width big-endian strings compare like the numbers they hold. */
  lemma {:induction false} BigEndianOrder(x: nat, y: nat, n: nat)
    requires x < Power256(n) && y < Power256(n)
    ensures Compare(PutBigEndian(x, n), PutBigEndian(y, n)) ==
            if x < y then -1 else if x == y then 0 else 1
  {
    if n > 0 {
      BigEndianOrder(x / 256, y / 256, n - 1);
      CompareAppend(PutBigEndian(x / 256, n - 1), PutBigEndian(y / 256, n - 1), x % 256, y % 256);
    }
  }

  /** The timestamp reads back, except that a key with an empty user part reads as timestamp 0. */
  lemma ParseTsRoundTrip(key: Bytes, ts: Timestamp)
    ensures ParseKey(KeyWithTs(key, ts)) == key
    ensures ParseTs(KeyWithTs(key, ts)) == ts <==> key != [] || ts == 0
  {
    EightBytes();
    var out := KeyWithTs(key, ts);
    assert out[|out| - 8..] == PutBigEndian(MAX_TS - ts, 8);
    BigEndianRoundTrip(MAX_TS - ts, 8);
  }

  /** User keys ascending, and the versions of one key descending. */
  lemma CompareKeysOrder(k1: Bytes, t1: Timestamp, k2: Bytes, t2: Timestamp)
    ensures CompareKeys(KeyWithTs(k1, t1), KeyWithTs(k2, t2)) ==
            if k1 != k2 then Compare(k1, k2) else if t1 > t2 then -1 else if t1 == t2 then 0 else 1
    ensures SameKey(KeyWithTs(k1, t1), KeyWithTs(k2, t2)) <==> k1 == k2
  {
    EightBytes();
    var a, b := KeyWithTs(k1, t1), KeyWithTs(k2, t2);
    assert a[..|a| - 8] == k1 && b[..|b| - 8] == k2;
    assert a[|a| - 8..] == PutBigEndian(MAX_TS - t1, 8) && b[|b| - 8..] == PutBigEndian(MAX_TS - t2, 8);
    BigEndianOrder(MAX_TS - t1, MAX_TS - t2, 8);
  }

  lemma {:induction false} CompareAntisymmetric(a: Bytes, b: Bytes)
    ensures Compare(a, b) == -Compare(b, a)
  {
    if a != [] && b != [] && a[0] == b[0] {
      CompareAntisymmetric(a[1..], b[1..]);
    }
  }

  lemma {:induction false} CompareTransitive(a: Bytes, b: Bytes, c: Bytes)
    requires Compare(a, b) < 0 && Compare(b, c) < 0
    ensures Compare(a, c) < 0
  {
    if a != [] && b[0] == a[0] && c[0] == b[0] {
      CompareTransitive(a[1..], b[1..], c[1..]);
    }
  }

  /** A user key as the number of known keys below it: the only thing the engine does with a
      user key is compare it, so integers stand in for the keys of any finite run. */
  type UserKey = int

  datatype InternalKey = InternalKey(user: UserKey, ts: nat)

  predicate Before(x: InternalKey, y: InternalKey)
  {
    x.user < y.user || (x.user == y.user && x.ts > y.ts)
  }

  function Rank(known: set<Bytes>, key: Bytes): UserKey
  {
    |set k | k in known && Compare(k, key) < 0|
  }

  lemma RankMonotone(known: set<Bytes>, a: Bytes, b: Bytes)
    requires a in known && Compare(a, b) < 0
    ensures Rank(known, a) < Rank(known, b)
  {
    var below := set k | k in known && Compare(k, a) < 0;
    var belowB := set k | k in known && Compare(k, b) < 0;
    forall k | k in below ensures k in belowB {
      CompareTransitive(k, a, b);
    }
    assert a in belowB && a !in below;
    SubsetSize(below, belowB - {a});
  }

  lemma SubsetSize<T>(a: set<T>, b: set<T>)
    requires a <= b
    ensures |a| <= |b|
  {
    assert b == a + (b - a);
  }

  /** The byte-level comparison of timestamped keys is exactly `Before` on their ranks. */
  lemma RankPreservesOrder(known: set<Bytes>, a: Bytes, t: Timestamp, b: Bytes, u: Timestamp)
    requires a in known && b in known
    ensures CompareKeys(KeyWithTs(a, t), KeyWithTs(b, u)) < 0 <==>
            Before(InternalKey(Rank(known, a), t), InternalKey(Rank(known, b), u))
    ensures CompareKeys(KeyWithTs(a, t), KeyWithTs(b, u)) == 0 <==>
            InternalKey(Rank(known, a), t) == InternalKey(Rank(known, b), u)
    ensures SameKey(KeyWithTs(a, t), KeyWithTs(b, u)) <==> Rank(known, a) == Rank(known, b)
  {
    CompareKeysOrder(a, t, b, u);
    CompareAntisymmetric(a, b);
    if Compare(a, b) < 0 {
      RankMonotone(known, a, b);
    } else if Compare(b, a) < 0 {
      RankMonotone(known, b, a);
    }
  }
}
