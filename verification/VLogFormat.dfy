/** structs.go and the entry format of memtable.go: the varint header of a value-log entry and
    the layout header, key, value, checksum. */
module VLogFormat {
  import opened Keys

  const MAX_HEADER_SIZE: nat := 22
  const CRC_SIZE: nat := 4

  // ---------- Varints ----------

  function Power128(n: nat): (p: nat)
    ensures p >= 1
  {
    if n == 0 then 1 else 128 * Power128(n - 1)
  }

  /** Seven bits a byte, the low ones first; the high bit says that more follow. */
  function Uvarint(x: nat): (out: Bytes)
    ensures out != []
  {
    if x < 128 then [x] else [x % 128 + 128] + Uvarint(x / 128)
  }

  method PutUvarint(x: nat) returns (out: Bytes)
    ensures out == Uvarint(x)
  {
    out := [];
    var rest := x;
    while rest >= 128
      invariant out + Uvarint(rest) == Uvarint(x)
    {
      assert out + Uvarint(rest) == (out + [rest % 128 + 128]) + Uvarint(rest / 128);
      out := out + [rest % 128 + 128];
      rest := rest / 128;
    }
    out := out + [rest];
  }

  /** A 7 n bit number takes at most n bytes. */
  lemma {:induction false} UvarintSize(x: nat, n: nat)
    requires n > 0 && x < Power128(n)
    ensures |Uvarint(x)| <= n
  {
    if x >= 128 {
      assert Power128(1) == 128;
      UvarintSize(x / 128, n - 1);
    }
  }

  const MAX_VARINT_LEN := 10

  /** The number read and the bytes it took: none when the buffer ends too early, and a negative
      count when the number does not fit 64 bits. */
  datatype Decoded = Decoded(value: nat, count: int)

  function Times(a: nat, b: nat): nat
  {
    a * b
  }

  /** What the bytes from the i-th on stand for. */
  function ReadFrom(buf: Bytes, scale: nat, i: nat): (d: Decoded)
    ensures d.count <= i + |buf|
    ensures d.count > 0 ==> i < d.count <= MAX_VARINT_LEN
  {
    if buf == [] then Decoded(0, 0)
    else if i >= MAX_VARINT_LEN then Decoded(0, -(MAX_VARINT_LEN + 1))
    else
      var b: int := buf[0];
      if b < 128 then
        if i == MAX_VARINT_LEN - 1 && b > 1 then Decoded(0, -MAX_VARINT_LEN) else Decoded(Times(b, scale), i + 1)
      else
        var d := ReadFrom(buf[1..], scale * 128, i + 1);
        if d.count <= 0 then d else d.(value := Times(b - 128, scale) + d.value)
  }

  method GetUvarint(buf: Bytes) returns (d: Decoded)
    ensures d == ReadFrom(buf, 1, 0)
    ensures d.count > 0 ==> d.count <= MAX_VARINT_LEN
  {
    var x: nat, scale: nat := 0, 1;
    var i := 0;
    while i < |buf|
      invariant 0 <= i <= |buf| && i <= MAX_VARINT_LEN
      invariant var d := ReadFrom(buf[i..], scale, i);
                ReadFrom(buf, 1, 0) == if d.count <= 0 then d else d.(value := x + d.value)
    {
      assert buf[i..][1..] == buf[i + 1..];
      if i == MAX_VARINT_LEN {
        return Decoded(0, -(MAX_VARINT_LEN + 1));
      }
      var b: int := buf[i];
      if b < 128 {
        if i == MAX_VARINT_LEN - 1 && b > 1 {
          return Decoded(0, -MAX_VARINT_LEN);
        }
        return Decoded(x + Times(b, scale), i + 1);
      }
      x := x + Times(b - 128, scale);
      scale := scale * 128;
      i := i + 1;
    }
    return Decoded(0, 0);
  }

  /** Any 64-bit number reads back, whatever follows it. */
  lemma {:induction false} UvarintRoundTrip(x: nat, scale: nat, i: nat, rest: Bytes)
    requires i < MAX_VARINT_LEN && x < 2 * Power128(MAX_VARINT_LEN - 1 - i)
    ensures ReadFrom(Uvarint(x) + rest, scale, i) == Decoded(x * scale, i + |Uvarint(x)|)
  {
    var out := Uvarint(x) + rest;
    if x >= 128 {
      assert out[1..] == Uvarint(x / 128) + rest;
      UvarintRoundTrip(x / 128, scale * 128, i + 1, rest);
      Scaled(x, scale);
    } else {
      assert out[0] == x;
    }
  }

  lemma Scaled(x: nat, scale: nat)
    ensures (x % 128) * scale + (x / 128) * (scale * 128) == x * scale
  {
    var q, r := x / 128, x % 128;
    assert x == 128 * q + r;
    assert x * scale == (128 * q) * scale + r * scale;
    assert (128 * q) * scale == q * (scale * 128);
  }

  // ---------- Header and entry ----------

  datatype Header = Header(klen: nat, vlen: nat, expiresAt: nat, meta: Byte, userMeta: Byte)

  predicate HeaderOk(h: Header) {
    h.klen < 0x1_0000_0000 && h.vlen < 0x1_0000_0000 && h.expiresAt <= MAX_TS
  }

  function EncodeHeader(h: Header): Bytes {
    [h.meta, h.userMeta] + (Uvarint(h.klen) + (Uvarint(h.vlen) + Uvarint(h.expiresAt)))
  }

  /** A header and where it ends, which is before the buffer when a number in it is too long; a
      slice that starts before the buffer stops the program. */
  datatype HeaderRead = HeaderRead(h: Header, end: int) | Panic

  /** header.Decode; the two lengths are cut to 32 bits. */
  function DecodeHeader(buf: Bytes): (r: HeaderRead)
    ensures r.HeaderRead? ==> r.end <= |buf|
  {
    if |buf| < 2 then Panic
    else
      var klen := ReadFrom(buf[2..], 1, 0);
      var at := 2 + klen.count;
      if at < 0 then Panic
      else
        var vlen := ReadFrom(buf[at..], 1, 0);
        var next := at + vlen.count;
        if next < 0 then Panic
        else
          var expiresAt := ReadFrom(buf[next..], 1, 0);
          HeaderRead(Header(klen.value % 0x1_0000_0000, vlen.value % 0x1_0000_0000, expiresAt.value, buf[0], buf[1]),
                     next + expiresAt.count)
  }

  /** Any header that fits its fields reads back, whatever follows it, and takes at most 22 bytes. */
  lemma HeaderRoundTrip(h: Header, rest: Bytes)
    requires HeaderOk(h)
    ensures DecodeHeader(EncodeHeader(h) + rest) == HeaderRead(h, |EncodeHeader(h)|)
    ensures 2 < |EncodeHeader(h)| <= MAX_HEADER_SIZE
  {
    hide Uvarint, ReadFrom, Power128;
    var k, v, x := Uvarint(h.klen), Uvarint(h.vlen), Uvarint(h.expiresAt);
    var buf := EncodeHeader(h) + rest;
    Bits();
    assert buf[2..] == k + (v + (x + rest));
    UvarintRoundTrip(h.klen, 1, 0, v + (x + rest));
    assert buf[2 + |k|..] == v + (x + rest);
    UvarintRoundTrip(h.vlen, 1, 0, x + rest);
    assert buf[2 + |k| + |v|..] == x + rest;
    UvarintRoundTrip(h.expiresAt, 1, 0, rest);
    UvarintSize(h.klen, 5);
    UvarintSize(h.vlen, 5);
    UvarintSize(h.expiresAt, 10);
  }

  lemma Bits()
    ensures Power128(5) > 0xFFFF_FFFF && 2 * Power128(9) == MAX_TS + 1 && Power128(10) > MAX_TS
  {
    assert Power128(3) == 128 * Power128(2) == 128 * 128 * 128;
    assert Power128(5) == 128 * Power128(4) == 0x8_0000_0000;
    assert Power128(7) == 128 * Power128(6) == 0x8_0000_0000 * 0x4000;
    assert Power128(9) == 128 * Power128(8) == 0x8_0000_0000 * 0x1000_0000;
  }

  /** The part of an entry that goes to the value log. */
  datatype VEntry = VEntry(key: Bytes, value: Bytes, expiresAt: nat, meta: Byte, userMeta: Byte)

  predicate EntryOk(e: VEntry) {
    |e.key| < 0x1_0000_0000 && |e.value| < 0x1_0000_0000 && e.expiresAt <= MAX_TS
  }

  function HeaderOf(e: VEntry): Header {
    Header(|e.key|, |e.value|, e.expiresAt, e.meta, e.userMeta)
  }

  /** CRC-32 (Castagnoli) is any function to four bytes here. */
  type Checksum = Bytes -> Bytes

  ghost predicate ChecksumOk(crc: Checksum) {
    forall b: Bytes :: |crc(b)| == CRC_SIZE
  }

  /** encodeEntry without encryption: the checksum covers all that is before it. */
  function EncodeEntry(e: VEntry, crc: Checksum): Bytes {
    var body := EncodeHeader(HeaderOf(e)) + (e.key + e.value);
    body + crc(body)
  }

  datatype ReadResult = Value(value: Bytes) | NotFound | BadOffset | Eof | Mismatch | BadLength | Stopped

  /** The end of valueLog.Read: check the checksum, decode the header and cut out the value, with
      lengths and their sum in 32 bits. A slice out of order stops the program. */
  function ValueIn(buf: Bytes, crc: Checksum, verify: bool): ReadResult {
    if verify && |buf| < CRC_SIZE then Stopped
    else if verify && crc(buf[..|buf| - CRC_SIZE]) != buf[|buf| - CRC_SIZE..] then Mismatch
    else
      match DecodeHeader(buf)
      case Panic => Stopped
      case HeaderRead(h, n) =>
        if n < 0 then Stopped
        else
          var kv, end := buf[n..], (h.klen + h.vlen) % 0x1_0000_0000;
          if |kv| % 0x1_0000_0000 < end then BadLength
          else if end < h.klen then Stopped
          else Value(kv[h.klen..end])
  }

  /** An encoded entry gives its value back, with or without checking the checksum, exactly when key,
      value and checksum together fit 32 bits. */
  lemma EntryRoundTrip(e: VEntry, crc: Checksum, verify: bool)
    requires EntryOk(e) && ChecksumOk(crc)
    ensures ValueIn(EncodeEntry(e, crc), crc, verify) == Value(e.value) <==> |e.key| + |e.value| + CRC_SIZE < 0x1_0000_0000
    ensures CRC_SIZE + |e.key| + |e.value| < |EncodeEntry(e, crc)| <= MAX_HEADER_SIZE + |e.key| + |e.value| + CRC_SIZE
  {
    hide EncodeHeader, DecodeHeader;
    var head := EncodeHeader(HeaderOf(e));
    var body := head + (e.key + e.value);
    var buf := EncodeEntry(e, crc);
    assert |crc(body)| == CRC_SIZE;
    assert buf[..|buf| - CRC_SIZE] == body && buf[|buf| - CRC_SIZE..] == crc(body);
    assert buf == head + ((e.key + e.value) + crc(body));
    HeaderRoundTrip(HeaderOf(e), (e.key + e.value) + crc(body));
    var kv := buf[|head|..];
    assert kv == (e.key + e.value) + crc(body);
    assert kv[|e.key|..|e.key| + |e.value|] == e.value;
  }
}
