/** value.go: values written to a cold and a hot value-log file, which are rotated when full, and
    read back through their pointers. */
module VLog {
  import opened Keys
  import opened VLogFormat

  const HEADER: nat := 20            // vlogHeaderSize
  const MAX_OFFSET: nat := 0xFFFF_FFFF
  const HOT_MASK: nat := 0x8000_0000

  type Fid = nat

  datatype Pointer = Pointer(fid: Fid, len: nat, offset: nat)

  const NO_POINTER := Pointer(0, 0, 0)

  /** The mapped bytes of a file and the size recorded for it. */
  datatype File = File(data: Bytes, size: nat)

  datatype Options = Options(fileSize: nat, maxEntries: nat, verify: bool, crc: Checksum)

  /** The file size is checked when the store is opened (db.go). */
  ghost predicate OptionsOk(o: Options) {
    ChecksumOk(o.crc) && 0x10_0000 <= o.fileSize < 0x8000_0000
  }

  /** An entry to write, whether it is large enough for the value log and whether its key is hot. */
  datatype Write = Write(entry: VEntry, large: bool, hot: bool)

  /** What goes to the file: the two transaction bits of the meta byte are cleared. */
  function Stored(e: VEntry): VEntry {
    e.(meta := e.meta % 64)
  }

  /** The stored entry is the one given, without the two transaction bits. */
  predicate KeptFrom(stored: VEntry, e: VEntry) {
    && stored.key == e.key && stored.value == e.value
    && stored.expiresAt == e.expiresAt && stored.userMeta == e.userMeta
    && stored.meta < 64 && exists bits: nat :: bits < 4 && e.meta == 64 * bits + stored.meta
  }

  lemma StoredIsKept(e: VEntry)
    ensures KeptFrom(Stored(e), e)
  {
    var bits: nat := e.meta / 64;
    assert bits < 4 && e.meta == 64 * bits + e.meta % 64;
  }

  datatype Outcome = Done | Rejected | Overrun

  // ---------- What a file holds ----------

  /** The bytes of the entries written to a file, one after the other. */
  function Packed(log: seq<VEntry>, crc: Checksum): Bytes {
    if log == [] then [] else Packed(log[..|log| - 1], crc) + EncodeEntry(log[|log| - 1], crc)
  }

  /** Where the next entry goes. */
  function End(log: seq<VEntry>, crc: Checksum): nat {
    HEADER + |Packed(log, crc)|
  }

  predicate HoldsLog(data: Bytes, log: seq<VEntry>, crc: Checksum) {
    End(log, crc) <= |data| && data[HEADER..End(log, crc)] == Packed(log, crc)
  }

  predicate LogOk(log: seq<VEntry>) {
    forall i | 0 <= i < |log| :: EntryOk(log[i])
  }

  /** The pointer of the entry at position `k` of a file's log. */
  function PointerTo(fid: Fid, log: seq<VEntry>, k: nat, crc: Checksum): Pointer
    requires k < |log|
  {
    Pointer(fid, |EncodeEntry(log[k], crc)|, End(log[..k], crc))
  }

  lemma PackedMore(log: seq<VEntry>, e: VEntry, crc: Checksum)
    ensures Packed(log + [e], crc) == Packed(log, crc) + EncodeEntry(e, crc)
  {
    assert (log + [e])[..|log|] == log;
  }

  /** The bytes at a pointer are those of its entry. */
  lemma SliceJoins(data: Bytes, at: nat, a: Bytes, b: Bytes)
    requires at + |a + b| <= |data| && data[at..at + |a + b|] == a + b
    ensures data[at..at + |a|] == a && data[at + |a|..at + |a + b|] == b
  {
    assert data[at..at + |a|] == data[at..at + |a + b|][..|a|];
    assert data[at + |a|..at + |a + b|] == data[at..at + |a + b|][|a|..];
  }

  lemma {:induction false} BytesAt(data: Bytes, log: seq<VEntry>, k: nat, crc: Checksum)
    requires HoldsLog(data, log, crc) && k < |log|
    ensures var p := PointerTo(0, log, k, crc);
            p.offset + p.len <= End(log, crc) && data[p.offset..p.offset + p.len] == EncodeEntry(log[k], crc)
    decreases |log|
  {
    hide EncodeEntry;
    var front, last := log[..|log| - 1], EncodeEntry(log[|log| - 1], crc);
    assert Packed(log, crc) == Packed(front, crc) + last;
    SliceJoins(data, HEADER, Packed(front, crc), last);
    if k < |log| - 1 {
      BytesAt(data, front, k, crc);
      assert front[..k] == log[..k];
    } else {
      assert log[..k] == front;
    }
  }

  /** The stretches of different entries of a file do not overlap, and follow each other. */
  lemma {:induction false} PointersInOrder(log: seq<VEntry>, j: nat, k: nat, crc: Checksum)
    requires j < k < |log|
    ensures var p, q := PointerTo(0, log, j, crc), PointerTo(0, log, k, crc);
            p.offset + p.len <= q.offset && (k == j + 1 ==> p.offset + p.len == q.offset)
    decreases k
  {
    var before := log[..k];
    assert before[..k - 1] == log[..k - 1];
    assert Packed(before, crc) == Packed(log[..k - 1], crc) + EncodeEntry(log[k - 1], crc);
    if j < k - 1 {
      PointersInOrder(log, j, k - 1, crc);
    }
  }

  predicate IsHot(fid: Fid) {
    fid >= HOT_MASK
  }

  ghost predicate FileOk(f: File, log: seq<VEntry>, crc: Checksum) {
    HoldsLog(f.data, log, crc) && LogOk(log) && f.size == End(log, crc)
  }

  type Logs = map<Fid, seq<VEntry>>

  /** Later writes only add files and lengthen their logs. */
  ghost predicate Extends(now: Logs, was: Logs) {
    forall f | f in was :: f in now && was[f] <= now[f]
  }

  /** `p` is the pointer of some entry `e` that was written. */
  ghost predicate PointsAt(logs: Logs, p: Pointer, e: VEntry, crc: Checksum) {
    p.fid in logs && exists k: nat :: k < |logs[p.fid]| && logs[p.fid][k] == e && p == PointerTo(p.fid, logs[p.fid], k, crc)
  }

  /** `p` is the pointer of an entry written for `e`. */
  ghost predicate PointsFor(logs: Logs, p: Pointer, e: VEntry, crc: Checksum) {
    exists stored :: KeptFrom(stored, e) && PointsAt(logs, p, stored, crc)
  }

  /** A pointer stays good whatever is written later, in whichever file. */
  lemma PointsStill(was: Logs, now: Logs, p: Pointer, e: VEntry, crc: Checksum)
    requires PointsAt(was, p, e, crc) && Extends(now, was)
    ensures PointsAt(now, p, e, crc)
  {
    var k: nat :| k < |was[p.fid]| && was[p.fid][k] == e && p == PointerTo(p.fid, was[p.fid], k, crc);
    assert now[p.fid][..k] == was[p.fid][..k];
    assert now[p.fid][k] == e && p == PointerTo(p.fid, now[p.fid], k, crc);
  }

  lemma NewFileOk(size: nat, crc: Checksum)
    requires size >= HEADER
    ensures FileOk(File(seq(size, _ => 0), HEADER), [], crc)
  {
  }

  /** Overwriting from the end of the log on, in a file made long enough. */
  function Splice(data: Bytes, start: nat, buf: Bytes): (out: Bytes)
    requires start <= |data|
    ensures |out| >= start + |buf|
  {
    var room := if start + |buf| >= |data| then data[..start] + buf else data[..start] + buf + data[start + |buf|..];
    room
  }

  lemma SpliceOk(f: File, log: seq<VEntry>, e: VEntry, crc: Checksum)
    requires FileOk(f, log, crc) && EntryOk(e)
    ensures End(log + [e], crc) == End(log, crc) + |EncodeEntry(e, crc)|
    ensures FileOk(File(Splice(f.data, End(log, crc), EncodeEntry(e, crc)), End(log + [e], crc)), log + [e], crc)
  {
    hide Packed, EncodeEntry;
    PackedMore(log, e, crc);
    var start, buf := End(log, crc), EncodeEntry(e, crc);
    var data := Splice(f.data, start, buf);
    assert data[HEADER..start] == f.data[HEADER..start];
    assert data[start..start + |buf|] == buf;
    assert data[HEADER..start + |buf|] == data[HEADER..start] + data[start..start + |buf|];
  }

  /** Every file holds its log; the ids of the two tiers are apart and below their maxima. */
  ghost predicate AllFilesOk(files: map<Fid, File>, logs: Logs, maxFid: Fid, hotMaxFid: Fid, crc: Checksum) {
    && files.Keys == logs.Keys
    && (forall f | f in files :: FileOk(files[f], logs[f], crc))
    && (forall f | f in files :: f <= if IsHot(f) then hotMaxFid else maxFid)
    && maxFid < HOT_MASK && (hotMaxFid == 0 || IsHot(hotMaxFid))
  }

  /** A new file above the others of its tier. */
  lemma FileAdded(files: map<Fid, File>, logs: Logs, maxFid: Fid, hotMaxFid: Fid, fid: Fid, f: File, crc: Checksum)
    requires AllFilesOk(files, logs, maxFid, hotMaxFid, crc) && FileOk(f, [], crc)
    requires if IsHot(fid) then fid > hotMaxFid else fid > maxFid
    ensures fid !in logs
    ensures AllFilesOk(files[fid := f], logs[fid := []], if IsHot(fid) then maxFid else fid, if IsHot(fid) then fid else hotMaxFid, crc)
  {
    hide FileOk;
  }

  lemma FileChanged(files: map<Fid, File>, logs: Logs, maxFid: Fid, hotMaxFid: Fid, fid: Fid, f: File, log: seq<VEntry>,
                    crc: Checksum)
    requires AllFilesOk(files, logs, maxFid, hotMaxFid, crc) && fid in files && FileOk(f, log, crc)
    ensures AllFilesOk(files[fid := f], logs[fid := log], maxFid, hotMaxFid, crc)
  {
    hide FileOk;
  }

  class ValueLog {
    const opt: Options
    var files: map<Fid, File>
    var maxFid: Fid
    var hotMaxFid: Fid
    var writableLogOffset: nat
    var hotWritableLogOffset: nat
    var numEntriesWritten: nat
    var hotNumEntriesWritten: nat
    /** What has been written to each file. */
    ghost var logs: Logs

    constructor (opt: Options)
      requires OptionsOk(opt)
      ensures Valid() && this.opt == opt && logs == map[1 := [], HOT_MASK + 1 := []]
      ensures maxFid == 1 && hotMaxFid == HOT_MASK + 1
    {
      this.opt := opt;
      files, maxFid, hotMaxFid, logs := map[], 0, 0, map[];
      writableLogOffset, hotWritableLogOffset, numEntriesWritten, hotNumEntriesWritten := 0, 0, 0, 0;
      new;
      CreateVlogFile(false);
      CreateVlogFile(true);
    }

    ghost predicate FilesOk()
      reads this
    {
      OptionsOk(opt) && AllFilesOk(files, logs, maxFid, hotMaxFid, opt.crc)
    }

    /** The two active files are written at their ends. */
    ghost predicate Valid()
      reads this
    {
      && FilesOk() && maxFid in logs && hotMaxFid in logs && IsHot(hotMaxFid) && maxFid != hotMaxFid
      && writableLogOffset == End(logs[maxFid], opt.crc) && hotWritableLogOffset == End(logs[hotMaxFid], opt.crc)
    }

    function Active(isHot: bool): Fid
      reads this
    {
      if isHot then hotMaxFid else maxFid
    }

    function Offset(isHot: bool): nat
      reads this
    {
      if isHot then hotWritableLogOffset else writableLogOffset
    }

    /** The next id of a tier; a hot id carries the mask. */
    function NextFid(isHot: bool): Fid
      reads this
    {
      if !isHot then maxFid + 1 else if hotMaxFid == 0 then HOT_MASK + 1 else hotMaxFid + 1
    }

    /** A new file of twice the configured size. Its id is one that no file has had: it is above
        all ids of its tier, and the mask keeps the tiers apart. */
    method CreateVlogFile(isHot: bool)
      requires FilesOk() && if isHot then hotMaxFid < 0xFFFF_FFFF else maxFid + 1 < HOT_MASK
      modifies this
      ensures FilesOk() && old(NextFid(isHot)) !in old(logs)
      ensures files.Keys == old(files).Keys + {old(NextFid(isHot))} && logs == old(logs)[old(NextFid(isHot)) := []]
      ensures isHot ==>
          && hotMaxFid == old(NextFid(true)) && IsHot(hotMaxFid) && hotWritableLogOffset == HEADER && hotNumEntriesWritten == 0
          && maxFid == old(maxFid) && writableLogOffset == old(writableLogOffset) && numEntriesWritten == old(numEntriesWritten)
      ensures !isHot ==>
          && maxFid == old(NextFid(false)) && writableLogOffset == HEADER && numEntriesWritten == 0
          && hotMaxFid == old(hotMaxFid) && hotWritableLogOffset == old(hotWritableLogOffset)
          && hotNumEntriesWritten == old(hotNumEntriesWritten)
    {
      var fid := NextFid(isHot);
      var size := 2 * opt.fileSize;
      NewFileOk(size, opt.crc);
      assert IsHot(fid) <==> isHot by {
        assert AllFilesOk(files, logs, maxFid, hotMaxFid, opt.crc);
      }
      hide FileOk, AllFilesOk;
      FileAdded(files, logs, maxFid, hotMaxFid, fid, File(seq(size, _ => 0), HEADER), opt.crc);
      files := files[fid := File(seq(size, _ => 0), HEADER)];
      logs := logs[fid := []];
      if isHot {
        hotMaxFid, hotWritableLogOffset, hotNumEntriesWritten := fid, HEADER, 0;
      } else {
        maxFid, writableLogOffset, numEntriesWritten := fid, HEADER, 0;
      }
    }

    /** writeCold and writeHot: encodes the entry and writes it at the end of the active file of its
        tier. The offset is a 32-bit counter. */
    method Append(e: VEntry, isHot: bool) returns (p: Pointer)
      requires Valid() && EntryOk(e)
      requires Offset(isHot) + |EncodeEntry(e, opt.crc)| <= MAX_OFFSET
      modifies this
      ensures Valid() && maxFid == old(maxFid) && hotMaxFid == old(hotMaxFid)
      ensures logs == old(logs)[Active(isHot) := old(logs[Active(isHot)]) + [e]]
      ensures p == PointerTo(Active(isHot), logs[Active(isHot)], |old(logs[Active(isHot)])|, opt.crc)
      ensures writableLogOffset == old(writableLogOffset) + if isHot then 0 else |EncodeEntry(e, opt.crc)|
      ensures hotWritableLogOffset == old(hotWritableLogOffset) + if isHot then |EncodeEntry(e, opt.crc)| else 0
      ensures numEntriesWritten == old(numEntriesWritten) && hotNumEntriesWritten == old(hotNumEntriesWritten)
    {
      hide FileOk, Packed, EncodeEntry;
      var fid := Active(isHot);
      var offset := Offset(isHot);
      var buf := EncodeEntry(e, opt.crc);
      var endOffset := (offset + |buf|) % 0x1_0000_0000;
      ghost var log := logs[fid];
      StartsInside(files[fid], log, opt.crc);
      SpliceOk(files[fid], log, e, opt.crc);
      hide AllFilesOk;
      FileChanged(files, logs, maxFid, hotMaxFid, fid, File(Splice(files[fid].data, offset, buf), endOffset), log + [e], opt.crc);
      files := files[fid := File(Splice(files[fid].data, offset, buf), endOffset)];
      logs := logs[fid := log + [e]];
      if isHot {
        hotWritableLogOffset := endOffset;
      } else {
        writableLogOffset := endOffset;
      }
      p := Pointer(fid, |buf|, offset);
      assert logs[fid][|log|] == e && logs[fid][..|log|] == log;
    }

    /** toDisk: rotates each tier whose file is full. */
    method ToDisk()
      requires Valid() && maxFid + 1 < HOT_MASK && hotMaxFid < 0xFFFF_FFFF
      modifies this
      ensures Valid() && Extends(logs, old(logs))
      ensures writableLogOffset == Rotated(old(writableLogOffset), old(numEntriesWritten), opt).0
      ensures numEntriesWritten == Rotated(old(writableLogOffset), old(numEntriesWritten), opt).1
      ensures hotWritableLogOffset == Rotated(old(hotWritableLogOffset), old(hotNumEntriesWritten), opt).0
      ensures hotNumEntriesWritten == Rotated(old(hotWritableLogOffset), old(hotNumEntriesWritten), opt).1
      ensures maxFid == old(maxFid) + if old(writableLogOffset) > opt.fileSize || old(numEntriesWritten) > opt.maxEntries then 1 else 0
      ensures hotMaxFid ==
          old(hotMaxFid) + if old(hotWritableLogOffset) > opt.fileSize || old(hotNumEntriesWritten) > opt.maxEntries then 1 else 0
    {
      hide AllFilesOk, Packed;
      EmptyEnd(opt.crc);
      if writableLogOffset > opt.fileSize || numEntriesWritten > opt.maxEntries {
        DoneWriting(maxFid, writableLogOffset);
        CreateVlogFile(false);
      }
      if hotWritableLogOffset > opt.fileSize || hotNumEntriesWritten > opt.maxEntries {
        DoneWriting(hotMaxFid, hotWritableLogOffset);
        CreateVlogFile(true);
      }
    }

    /** One request: each large entry goes to the file of its tier, in order, and gets a pointer.
        This works out exactly when what the request adds to either file stays within 32 bits. */
    method WriteRequest(req: seq<Write>) returns (ok: bool, ptrs: seq<Pointer>)
      requires Valid() && (forall w | w in req :: EntryOk(w.entry))
      requires writableLogOffset <= MAX_OFFSET && hotWritableLogOffset <= MAX_OFFSET
      modifies this
      ensures ok <==> old(writableLogOffset) + Size(Routed(req, false), opt.crc) <= MAX_OFFSET
                      && old(hotWritableLogOffset) + Size(Routed(req, true), opt.crc) <= MAX_OFFSET
      ensures ok ==> Valid() && maxFid == old(maxFid) && hotMaxFid == old(hotMaxFid)
      ensures ok ==> logs == Sent(old(logs), req, maxFid, hotMaxFid) && Answered(logs, req, ptrs, maxFid, hotMaxFid, opt.crc)
      ensures ok ==> PointersGood(logs, req, ptrs, opt.crc)
      ensures ok ==> writableLogOffset == old(writableLogOffset) + Size(Routed(req, false), opt.crc)
      ensures ok ==> hotWritableLogOffset == old(hotWritableLogOffset) + Size(Routed(req, true), opt.crc)
      ensures ok ==> numEntriesWritten == old(numEntriesWritten) + |Routed(req, false)|
      ensures ok ==> hotNumEntriesWritten == old(hotNumEntriesWritten) + |Routed(req, true)|
    {
      hide Packed, FileOk, PointsAt, EncodeEntry, Size, Routed, Sent, Answered, PointersGood;
      ptrs := [];
      var coldWritten, hotWritten := 0, 0;
      ghost var start, c, h := logs, maxFid, hotMaxFid;
      StartOfRequest(start, c, h, opt.crc);
      for j := 0 to |req|
        invariant Valid() && maxFid == c && hotMaxFid == h
        invariant logs == Sent(start, req[..j], c, h) && Answered(logs, req[..j], ptrs, c, h, opt.crc)
        invariant writableLogOffset == old(writableLogOffset) + Size(Routed(req[..j], false), opt.crc) <= MAX_OFFSET
        invariant hotWritableLogOffset == old(hotWritableLogOffset) + Size(Routed(req[..j], true), opt.crc) <= MAX_OFFSET
        invariant coldWritten == |Routed(req[..j], false)| && hotWritten == |Routed(req[..j], true)|
        invariant numEntriesWritten == old(numEntriesWritten) && hotNumEntriesWritten == old(hotNumEntriesWritten)
      {
        var w := req[j];
        assert w in req;
        OneMore(req, j, false, opt.crc);
        OneMore(req, j, true, opt.crc);
        if !w.large {
          SkippedMore(start, logs, req, j, ptrs, c, h, opt.crc);
          ptrs := ptrs + [NO_POINTER];
          continue;
        }
        if Offset(w.hot) + |EncodeEntry(Stored(w.entry), opt.crc)| > MAX_OFFSET {
          return false, ptrs;
        }
        ghost var before := logs;
        var p := Append(Stored(w.entry), w.hot);
        AnsweredMore(start, before, logs, req, j, ptrs, p, c, h, opt.crc);
        ptrs := ptrs + [p];
        if w.hot {
          hotWritten := hotWritten + 1;
        } else {
          coldWritten := coldWritten + 1;
        }
      }
      assert req[..|req|] == req;
      AnsweredIsGood(start, logs, req, ptrs, c, h, opt.crc);
      numEntriesWritten := numEntriesWritten + coldWritten;
      hotNumEntriesWritten := hotNumEntriesWritten + hotWritten;
      ok := true;
    }

    /** write: the requests one after the other, each followed by a rotation of full files. Every
        pointer handed out points at its own entry when all is done. */
    method Write(reqs: seq<seq<Write>>) returns (out: Outcome, ptrs: seq<seq<Pointer>>)
      requires Valid() && maxFid + |reqs| + 1 < HOT_MASK && hotMaxFid + |reqs| + 1 <= 0xFFFF_FFFF
      requires writableLogOffset <= opt.fileSize && hotWritableLogOffset <= opt.fileSize
      requires forall i | 0 <= i < |reqs| :: forall w | w in reqs[i] :: EntryOk(w.entry)
      modifies this
      ensures out == Rejected <==> !Accepted(Estimates(reqs), old(writableLogOffset), old(hotWritableLogOffset), opt.fileSize)
      ensures out == Overrun <==>
          && out != Rejected
          && !Fits(reqs, old(writableLogOffset), old(numEntriesWritten), old(hotWritableLogOffset), old(hotNumEntriesWritten), opt)
      ensures out == Rejected ==> unchanged(this)
      ensures out == Done ==> Valid() && Extends(logs, old(logs))
      ensures out == Done ==> writableLogOffset <= opt.fileSize && hotWritableLogOffset <= opt.fileSize
      ensures out == Done ==> |ptrs| == |reqs| && forall i | 0 <= i < |reqs| :: PointersGood(logs, reqs[i], ptrs[i], opt.crc)
      ensures out == Done ==> forall i, k | 0 <= i < |reqs| && 0 <= k < |reqs[i]| && reqs[i][k].large ::
          |ptrs[i]| == |reqs[i]| && Answer(ptrs[i][k]) == Value(reqs[i][k].entry.value)
    {
      hide Packed, AllFilesOk, EncodeEntry, Size, Routed, Sent, Answered, Extends, PointersGood, Accepted, Estimate;
      ptrs := [];
      var ok := ValidateWrites(Estimates(reqs), writableLogOffset, hotWritableLogOffset, opt.fileSize);
      if !ok {
        return Rejected, ptrs;
      }
      ghost var fits := Fits(reqs, writableLogOffset, numEntriesWritten, hotWritableLogOffset, hotNumEntriesWritten, opt);
      ExtendsSame(logs);
      for i := 0 to |reqs|
        invariant Valid() && Extends(logs, old(logs)) && maxFid <= old(maxFid) + i && hotMaxFid <= old(hotMaxFid) + i && |ptrs| == i
        invariant writableLogOffset <= opt.fileSize && hotWritableLogOffset <= opt.fileSize
        invariant fits == Fits(reqs[i..], writableLogOffset, numEntriesWritten, hotWritableLogOffset, hotNumEntriesWritten, opt)
        invariant forall k | 0 <= k < i :: PointersGood(logs, reqs[k], ptrs[k], opt.crc)
      {
        assert reqs[i..][0] == reqs[i] && reqs[i..][1..] == reqs[i + 1..];
        ghost var before := logs;
        var done, p := WriteRequest(reqs[i]);
        if !done {
          return Overrun, ptrs;
        }
        ghost var between, c, h := logs, maxFid, hotMaxFid;
        ToDisk();
        RequestDone(old(logs), before, between, logs, reqs, ptrs, i, p, c, h, opt.crc);
        ptrs := ptrs + [p];
      }
      ghost var before := logs;
      ToDisk();
      ExtendsOn(logs, before, old(logs));
      forall k | 0 <= k < |reqs| ensures PointersGood(logs, reqs[k], ptrs[k], opt.crc) {
        StillGood(before, logs, reqs[k], ptrs[k], opt.crc);
      }
      AllAnswered(reqs, ptrs);
      out := Done;
    }

    /** Cuts a full file to what was written. */
    method DoneWriting(fid: Fid, offset: nat)
      requires Valid() && fid in logs && offset == End(logs[fid], opt.crc)
      modifies this`files
      ensures Valid()
    {
      hide Packed;
      var f := files[fid];
      CutOk(f, logs[fid], opt.crc);
      hide AllFilesOk;
      FileChanged(files, logs, maxFid, hotMaxFid, fid, File(f.data[..offset], offset), logs[fid], opt.crc);
      assert logs[fid := logs[fid]] == logs;
      files := files[fid := File(f.data[..offset], offset)];
    }

    /** What a read answers: getFileRLocked, the bounds checks of logFile.read, and the decoding of
        Read. A slice out of order stops the program. */
    function Answer(p: Pointer): ReadResult
      reads this
    {
      if p.fid !in files then NotFound
      else if p.fid == maxFid && p.offset >= writableLogOffset then BadOffset
      else if p.fid != maxFid && p.fid == hotMaxFid && p.offset >= hotWritableLogOffset then BadOffset
      else
        var f, end := files[p.fid], (p.offset + p.len) % 0x1_0000_0000;
        if p.offset >= |f.data| || end > |f.data| || end > f.size then Eof
        else if end < p.offset then Stopped
        else ValueIn(f.data[p.offset..end], opt.crc, opt.verify)
    }

    /** A pointer that was handed out is answered with its entry's value. */
    lemma AnswersWell(p: Pointer, e: VEntry)
      requires Valid() && PointsFor(logs, p, e, opt.crc) && p.offset + p.len <= MAX_OFFSET
      ensures Answer(p) == Value(e.value)
    {
      hide AllFilesOk, Packed, EncodeEntry, ValueIn, PointsAt;
      var stored :| KeptFrom(stored, e) && PointsAt(logs, p, stored, opt.crc);
      PointerInside(files, logs, maxFid, hotMaxFid, p, stored, opt);
      assert (p.offset + p.len) % 0x1_0000_0000 == p.offset + p.len;
    }

    lemma AllAnswered(reqs: seq<seq<Write>>, ptrs: seq<seq<Pointer>>)
      requires Valid() && |ptrs| == |reqs| && forall i | 0 <= i < |reqs| :: PointersGood(logs, reqs[i], ptrs[i], opt.crc)
      ensures forall i, k | 0 <= i < |reqs| && 0 <= k < |reqs[i]| && reqs[i][k].large ::
          |ptrs[i]| == |reqs[i]| && Answer(ptrs[i][k]) == Value(reqs[i][k].entry.value)
    {
      hide Valid, Answer, PointsFor;
      forall i, k | 0 <= i < |reqs| && 0 <= k < |reqs[i]| && reqs[i][k].large
        ensures |ptrs[i]| == |reqs[i]| && Answer(ptrs[i][k]) == Value(reqs[i][k].entry.value)
      {
        AnswersWell(ptrs[i][k], reqs[i][k].entry);
      }
    }

    method Read(p: Pointer) returns (r: ReadResult)
      requires OptionsOk(opt)
      ensures r == Answer(p)
      ensures forall e :: Valid() && PointsFor(logs, p, e, opt.crc) && p.offset + p.len <= MAX_OFFSET ==> r == Value(e.value)
    {
      hide PointsFor, ValueIn;
      forall e | Valid() && PointsFor(logs, p, e, opt.crc) && p.offset + p.len <= MAX_OFFSET ensures Answer(p) == Value(e.value) {
        AnswersWell(p, e);
      }
      if p.fid !in files {
        return NotFound;
      }
      if p.fid == maxFid {
        if p.offset >= writableLogOffset {
          return BadOffset;
        }
      } else if p.fid == hotMaxFid && p.offset >= hotWritableLogOffset {
        return BadOffset;
      }
      var f := files[p.fid];
      var end := (p.offset + p.len) % 0x1_0000_0000;
      if p.offset >= |f.data| || end > |f.data| || end > f.size {
        return Eof;
      }
      if end < p.offset {
        return Stopped;
      }
      r := ValueIn(f.data[p.offset..end], opt.crc, opt.verify);
    }
  }

  lemma EmptyEnd(crc: Checksum)
    ensures End([], crc) == HEADER
  {
  }

  lemma CutOk(f: File, log: seq<VEntry>, crc: Checksum)
    requires FileOk(f, log, crc)
    ensures End(log, crc) <= |f.data| && FileOk(File(f.data[..End(log, crc)], End(log, crc)), log, crc)
  {
    var offset := End(log, crc);
    assert f.data[..offset][HEADER..offset] == f.data[HEADER..offset];
  }

  lemma StartsInside(f: File, log: seq<VEntry>, crc: Checksum)
    requires FileOk(f, log, crc)
    ensures HEADER <= End(log, crc) <= |f.data|
  {
  }

  /** The stretch of a good pointer lies in the written part of its file and decodes to its value. */
  ghost predicate ReadsBack(f: File, log: seq<VEntry>, p: Pointer, e: VEntry, o: Options) {
    && CRC_SIZE < p.len && p.offset + p.len <= f.size == End(log, o.crc) && f.size <= |f.data|
    && (p.len <= MAX_OFFSET ==> ValueIn(f.data[p.offset..p.offset + p.len], o.crc, o.verify) == Value(e.value))
  }

  lemma PointerInside(files: map<Fid, File>, logs: Logs, maxFid: Fid, hotMaxFid: Fid, p: Pointer, e: VEntry, o: Options)
    requires AllFilesOk(files, logs, maxFid, hotMaxFid, o.crc) && OptionsOk(o) && PointsAt(logs, p, e, o.crc)
    ensures p.fid in files && p.fid in logs && ReadsBack(files[p.fid], logs[p.fid], p, e, o)
  {
    hide Packed, EncodeEntry, ValueIn;
    var f, log := files[p.fid], logs[p.fid];
    assert FileOk(f, log, o.crc);
    var k: nat :| k < |log| && log[k] == e && p == PointerTo(p.fid, log, k, o.crc);
    BytesAt(f.data, log, k, o.crc);
    EntryRoundTrip(e, o.crc, o.verify);
  }

  lemma ExtendsSame(logs: Logs)
    ensures Extends(logs, logs)
  {
  }

  lemma ExtendsOn(c: Logs, b: Logs, a: Logs)
    requires Extends(c, b) && Extends(b, a)
    ensures Extends(c, a)
  {
  }

  // ---------- One request ----------

  /** What a request sends to the file of one tier. */
  function Routed(req: seq<Write>, isHot: bool): seq<VEntry> {
    if req == [] then []
    else
      var w := req[|req| - 1];
      Routed(req[..|req| - 1], isHot) + if w.large && w.hot == isHot then [Stored(w.entry)] else []
  }

  function Size(es: seq<VEntry>, crc: Checksum): nat {
    |Packed(es, crc)|
  }

  /** The logs after a request: both active files get what is routed to them, no other file
      changes. */
  ghost function Sent(logs: Logs, req: seq<Write>, c: Fid, h: Fid): Logs
    requires c in logs && h in logs
  {
    var cold := logs[c := logs[c] + Routed(req, false)];
    cold[h := cold[h] + Routed(req, true)]
  }

  /** Each large entry has the pointer to its own place in the file of its tier; the others have
      none. */
  ghost predicate Answered(logs: Logs, req: seq<Write>, ptrs: seq<Pointer>, c: Fid, h: Fid, crc: Checksum) {
    |ptrs| == |req| && forall k | 0 <= k < |req| ::
      if req[k].large then
        && ptrs[k].fid == (if req[k].hot then h else c) && ptrs[k].offset + ptrs[k].len <= MAX_OFFSET
        && PointsAt(logs, ptrs[k], Stored(req[k].entry), crc)
      else ptrs[k] == NO_POINTER
  }

  /** Each large entry has a pointer to what was written for it, in a file of its tier and within 32
      bits; the others have none. */
  ghost predicate PointersGood(logs: Logs, req: seq<Write>, ptrs: seq<Pointer>, crc: Checksum) {
    |ptrs| == |req| && forall k | 0 <= k < |req| ::
      if req[k].large then
        && (IsHot(ptrs[k].fid) <==> req[k].hot) && ptrs[k].offset + ptrs[k].len <= MAX_OFFSET
        && PointsFor(logs, ptrs[k], req[k].entry, crc)
      else ptrs[k] == NO_POINTER
  }

  lemma StartOfRequest(logs: Logs, c: Fid, h: Fid, crc: Checksum)
    requires c in logs && h in logs
    ensures Sent(logs, [], c, h) == logs && Answered(logs, [], [], c, h, crc)
    ensures Routed([], false) == Routed([], true) == [] && Size([], crc) == 0
  {
    assert logs[c] + [] == logs[c] && logs[h] + [] == logs[h];
  }

  /** What one more entry sends to a tier, and that its bytes only grow. */
  lemma {:induction false} OneMore(req: seq<Write>, j: nat, isHot: bool, crc: Checksum)
    requires j < |req|
    ensures var more := req[j].large && req[j].hot == isHot;
            var (now, next) := (Routed(req[..j], isHot), Routed(req[..j + 1], isHot));
            && next == (if more then now + [Stored(req[j].entry)] else now)
            && Size(next, crc) == Size(now, crc) + (if more then |EncodeEntry(Stored(req[j].entry), crc)| else 0)
            && Size(next, crc) <= Size(Routed(req, isHot), crc)
    decreases |req| - j
  {
    hide EncodeEntry, Packed;
    assert req[..j + 1][..j] == req[..j];
    var now := Routed(req[..j], isHot);
    assert now + [] == now;
    PackedMore(now, Stored(req[j].entry), crc);
    if j + 1 < |req| {
      OneMore(req, j + 1, isHot, crc);
    } else {
      assert req[..j + 1] == req;
    }
  }

  lemma SkippedMore(start: Logs, logs: Logs, req: seq<Write>, j: nat, ptrs: seq<Pointer>, c: Fid, h: Fid, crc: Checksum)
    requires j < |req| && !req[j].large && c in start && h in start
    requires logs == Sent(start, req[..j], c, h) && Answered(logs, req[..j], ptrs, c, h, crc)
    ensures logs == Sent(start, req[..j + 1], c, h) && Answered(logs, req[..j + 1], ptrs + [NO_POINTER], c, h, crc)
  {
    hide PointsAt;
    OneMore(req, j, false, crc);
    OneMore(req, j, true, crc);
  }

  lemma AnsweredMore(start: Logs, before: Logs, logs: Logs, req: seq<Write>, j: nat, ptrs: seq<Pointer>, p: Pointer,
                     c: Fid, h: Fid, crc: Checksum)
    requires j < |req| && req[j].large && c in start && h in start && c != h
    requires before == Sent(start, req[..j], c, h) && Answered(before, req[..j], ptrs, c, h, crc)
    requires var f := if req[j].hot then h else c;
             && logs == before[f := before[f] + [Stored(req[j].entry)]] && p == PointerTo(f, logs[f], |before[f]|, crc)
             && p.offset + p.len <= MAX_OFFSET
    ensures logs == Sent(start, req[..j + 1], c, h) && Answered(logs, req[..j + 1], ptrs + [p], c, h, crc)
  {
    hide EncodeEntry, Packed;
    assert req[..j + 1][..j] == req[..j];
    forall k | 0 <= k < j && req[k].large ensures PointsAt(logs, ptrs[k], Stored(req[k].entry), crc) {
      assert req[..j][k] == req[k];
      PointsStill(before, logs, ptrs[k], Stored(req[k].entry), crc);
    }
    SentMore(start, before, logs, req, j, c, h, crc);
  }

  lemma SentMore(start: Logs, before: Logs, logs: Logs, req: seq<Write>, j: nat, c: Fid, h: Fid, crc: Checksum)
    requires j < |req| && req[j].large && c in start && h in start && c != h
    requires before == Sent(start, req[..j], c, h)
    requires var f := if req[j].hot then h else c;
             logs == before[f := before[f] + [Stored(req[j].entry)]]
    ensures logs == Sent(start, req[..j + 1], c, h)
  {
    OneMore(req, j, false, crc);
    OneMore(req, j, true, crc);
    hide Routed;
    var w := req[j];
    var cold, hot, more := Routed(req[..j], false), Routed(req[..j], true), [Stored(w.entry)];
    assert cold + [] == cold && hot + [] == hot;
    TwoGrow(start, cold, hot, if w.hot then [] else more, if w.hot then more else [], c, h);
    if w.hot {
      assert before[c] + [] == before[c];
    } else {
      assert before[h] + [] == before[h];
    }
  }

  lemma TwoGrow(m: Logs, a: seq<VEntry>, b: seq<VEntry>, x: seq<VEntry>, y: seq<VEntry>, c: Fid, h: Fid)
    requires c in m && h in m && c != h
    ensures var n := m[c := m[c] + a][h := m[h] + b];
            n[c := n[c] + x][h := n[h] + y] == m[c := m[c] + (a + x)][h := m[h] + (b + y)]
  {
    assert (m[c] + a) + x == m[c] + (a + x) && (m[h] + b) + y == m[h] + (b + y);
  }

  lemma AnsweredIsGood(was: Logs, now: Logs, req: seq<Write>, ptrs: seq<Pointer>, c: Fid, h: Fid, crc: Checksum)
    requires c in was && h in was && now == Sent(was, req, c, h) && Answered(now, req, ptrs, c, h, crc)
    requires IsHot(h) && !IsHot(c)
    ensures Extends(now, was) && PointersGood(now, req, ptrs, crc)
  {
    hide PointsAt, Routed, Stored, KeptFrom;
    forall k | 0 <= k < |req| && req[k].large ensures PointsFor(now, ptrs[k], req[k].entry, crc) {
      StoredIsKept(req[k].entry);
    }
  }

  /** One more request is done, and the pointers handed out before are still good. */
  lemma RequestDone(start: Logs, before: Logs, between: Logs, now: Logs, reqs: seq<seq<Write>>, ptrs: seq<seq<Pointer>>, i: nat,
                    p: seq<Pointer>, c: Fid, h: Fid, crc: Checksum)
    requires i == |ptrs| < |reqs| && Extends(before, start) && Extends(now, between)
    requires IsHot(h) && !IsHot(c)
    requires c in before && h in before && between == Sent(before, reqs[i], c, h) && Answered(between, reqs[i], p, c, h, crc)
    requires forall k | 0 <= k < i :: PointersGood(before, reqs[k], ptrs[k], crc)
    ensures Extends(now, start) && PointersGood(now, reqs[i], p, crc)
    ensures forall k | 0 <= k < i :: PointersGood(now, reqs[k], ptrs[k], crc)
  {
    hide Extends, PointersGood, Sent, Answered;
    AnsweredIsGood(before, between, reqs[i], p, c, h, crc);
    StillGood(between, now, reqs[i], p, crc);
    ExtendsOn(now, between, before);
    ExtendsOn(now, before, start);
    forall k | 0 <= k < i ensures PointersGood(now, reqs[k], ptrs[k], crc) {
      StillGood(before, now, reqs[k], ptrs[k], crc);
    }
  }

  lemma StillGood(was: Logs, now: Logs, req: seq<Write>, ptrs: seq<Pointer>, crc: Checksum)
    requires PointersGood(was, req, ptrs, crc) && Extends(now, was)
    ensures PointersGood(now, req, ptrs, crc)
  {
    hide PointsAt, KeptFrom, Extends;
    forall k | 0 <= k < |req| && req[k].large ensures PointsFor(now, ptrs[k], req[k].entry, crc) {
      var stored :| KeptFrom(stored, req[k].entry) && PointsAt(was, ptrs[k], stored, crc);
      PointsStill(was, now, ptrs[k], stored, crc);
    }
  }

  // ---------- Room for the offsets ----------

  /** estimateRequestSize. */
  function Estimate(req: seq<Write>): nat {
    if req == [] then 0
    else
      var e := req[|req| - 1].entry;
      Estimate(req[..|req| - 1]) + MAX_HEADER_SIZE + |e.key| + |e.value| + CRC_SIZE
  }

  function Estimates(reqs: seq<seq<Write>>): (sizes: seq<nat>)
    ensures |sizes| == |reqs| && forall i | 0 <= i < |reqs| :: sizes[i] == Estimate(reqs[i])
  {
    seq(|reqs|, i requires 0 <= i < |reqs| => Estimate(reqs[i]))
  }

  /** What validateWrites accepts, from the estimated sizes of the requests. */
  predicate Accepted(sizes: seq<nat>, cold: nat, hot: nat, fileSize: nat) {
    sizes != [] ==>
      && cold + sizes[0] <= MAX_OFFSET && hot + sizes[0] <= MAX_OFFSET
      && Accepted(sizes[1..], if cold + sizes[0] >= fileSize then 0 else cold + sizes[0],
                  if hot + sizes[0] >= fileSize then 0 else hot + sizes[0], fileSize)
  }

  method ValidateWrites(sizes: seq<nat>, cold: nat, hot: nat, fileSize: nat) returns (ok: bool)
    ensures ok <==> Accepted(sizes, cold, hot, fileSize)
  {
    var coldOffset: nat, hotOffset: nat := cold, hot;
    for i := 0 to |sizes|
      invariant Accepted(sizes, cold, hot, fileSize) <==> Accepted(sizes[i..], coldOffset, hotOffset, fileSize)
    {
      assert sizes[i..][1..] == sizes[i + 1..];
      if coldOffset + sizes[i] > MAX_OFFSET || hotOffset + sizes[i] > MAX_OFFSET {
        return false;
      }
      coldOffset := if coldOffset + sizes[i] >= fileSize then 0 else coldOffset + sizes[i];
      hotOffset := if hotOffset + sizes[i] >= fileSize then 0 else hotOffset + sizes[i];
    }
    return true;
  }

  /** Offset and number of entries of a tier after the check for a full file. */
  function Rotated(offset: nat, entries: nat, o: Options): (nat, nat) {
    if offset > o.fileSize || entries > o.maxEntries then (HEADER, 0) else (offset, entries)
  }

  /** No request runs past 32 bits in either file, with the files rotated in between. */
  ghost predicate Fits(reqs: seq<seq<Write>>, cold: nat, coldEntries: nat, hot: nat, hotEntries: nat, o: Options) {
    reqs != [] ==>
      var toCold, toHot := Routed(reqs[0], false), Routed(reqs[0], true);
      var c := Rotated(cold + Size(toCold, o.crc), coldEntries + |toCold|, o);
      var h := Rotated(hot + Size(toHot, o.crc), hotEntries + |toHot|, o);
      && cold + Size(toCold, o.crc) <= MAX_OFFSET && hot + Size(toHot, o.crc) <= MAX_OFFSET
      && Fits(reqs[1..], c.0, c.1, h.0, h.1, o)
  }

  /** The estimate covers what a request sends to either file. */
  lemma {:induction false} EstimateCovers(req: seq<Write>, isHot: bool, o: Options)
    requires OptionsOk(o) && (forall w | w in req :: EntryOk(w.entry))
    ensures Size(Routed(req, isHot), o.crc) <= Estimate(req)
  {
    hide EncodeEntry;
    if req != [] {
      var front, w := req[..|req| - 1], req[|req| - 1];
      EstimateCovers(front, isHot, o);
      EntryRoundTrip(Stored(w.entry), o.crc, true);
      PackedMore(Routed(front, isHot), Stored(w.entry), o.crc);
      assert Routed(front, isHot) + [] == Routed(front, isHot);
    }
  }

  /** Requests of at most 2 GiB each, as estimated, are accepted and fit. */
  lemma {:induction false} RoomIsEnough(reqs: seq<seq<Write>>, cold: nat, coldEntries: nat, hot: nat, hotEntries: nat,
                                        c: nat, h: nat, o: Options)
    requires OptionsOk(o) && cold <= o.fileSize && hot <= o.fileSize && c <= o.fileSize && h <= o.fileSize
    requires forall i | 0 <= i < |reqs| :: Estimate(reqs[i]) <= 0x8000_0000 && forall w | w in reqs[i] :: EntryOk(w.entry)
    ensures Fits(reqs, cold, coldEntries, hot, hotEntries, o) && Accepted(Estimates(reqs), c, h, o.fileSize)
  {
    hide Packed, Size, Routed, Estimate, EncodeEntry;
    if reqs != [] {
      EstimateCovers(reqs[0], false, o);
      EstimateCovers(reqs[0], true, o);
      var toCold, toHot := Routed(reqs[0], false), Routed(reqs[0], true);
      var nextCold := Rotated(cold + Size(toCold, o.crc), coldEntries + |toCold|, o);
      var nextHot := Rotated(hot + Size(toHot, o.crc), hotEntries + |toHot|, o);
      var size := Estimate(reqs[0]);
      RoomIsEnough(reqs[1..], nextCold.0, nextCold.1, nextHot.0, nextHot.1,
                   if c + size >= o.fileSize then 0 else c + size, if h + size >= o.fileSize then 0 else h + size, o);
      assert Estimates(reqs)[1..] == Estimates(reqs[1..]);
    }
  }

  /** A request that stays out of the log forces no rotation, but the check takes its estimate for
      one: what comes next is accepted as if into an empty file, and written behind what is there. */
  lemma InlineMisleads(first: seq<Write>, r: seq<Write>, cold: nat, coldEntries: nat, hot: nat, hotEntries: nat, o: Options)
    requires cold <= o.fileSize && hot <= o.fileSize && coldEntries <= o.maxEntries && hotEntries <= o.maxEntries
    requires forall v | v in first :: !v.large
    requires o.fileSize <= cold + Estimate(first) <= MAX_OFFSET && o.fileSize <= hot + Estimate(first) <= MAX_OFFSET
    ensures Accepted(Estimates([first, r]), cold, hot, o.fileSize) <==> Estimate(r) <= MAX_OFFSET
    ensures Fits([first, r], cold, coldEntries, hot, hotEntries, o) <==>
            cold + Size(Routed(r, false), o.crc) <= MAX_OFFSET && hot + Size(Routed(r, true), o.crc) <= MAX_OFFSET
  {
    hide Size, Routed, Estimate;
    var sizes := Estimates([first, r]);
    assert sizes[1..] == [Estimate(r)] && sizes[1..][1..] == [];
    assert Accepted(sizes[1..], 0, 0, o.fileSize) <==> Estimate(r) <= MAX_OFFSET;
    NothingRouted(first, false);
    NothingRouted(first, true);
    NothingSized(o.crc);
    assert [first, r][1..] == [r] && [r][1..] == [];
    assert Fits([r], cold, coldEntries, hot, hotEntries, o) <==>
      cold + Size(Routed(r, false), o.crc) <= MAX_OFFSET && hot + Size(Routed(r, true), o.crc) <= MAX_OFFSET;
  }

  lemma NothingSized(crc: Checksum)
    ensures Size([], crc) == 0
  {
  }

  /** A request fits wherever it is accepted: behind any requests that are accepted with it and fit
      themselves, from any state of the two active files. */
  ghost predicate FitsWhereAccepted(r: seq<Write>, o: Options) {
    forall before, cold: nat, coldEntries: nat, hot: nat, hotEntries: nat
      | cold <= o.fileSize && hot <= o.fileSize && Accepted(Estimates(before + [r]), cold, hot, o.fileSize)
        && Fits(before, cold, coldEntries, hot, hotEntries, o) ::
      Fits(before + [r], cold, coldEntries, hot, hotEntries, o)
  }

  /** What it sends to either tier fits behind a whole file, or it is never accepted. */
  ghost predicate FitsBehindFile(r: seq<Write>, o: Options) {
    Estimate(r) > MAX_OFFSET || forall isHot :: o.fileSize + Size(Routed(r, isHot), o.crc) <= MAX_OFFSET
  }

  /** The check is enough for a request exactly when there is room for it behind a whole file. */
  lemma AcceptedFitsExactly(r: seq<Write>, o: Options)
    requires OptionsOk(o)
    ensures FitsWhereAccepted(r, o) <==> FitsBehindFile(r, o)
  {
    hide Size, Routed, Estimate, Fits, Accepted, Estimates;
    if FitsBehindFile(r, o) {
      forall before, cold: nat, coldEntries: nat, hot: nat, hotEntries: nat
        | cold <= o.fileSize && hot <= o.fileSize && Accepted(Estimates(before + [r]), cold, hot, o.fileSize)
          && Fits(before, cold, coldEntries, hot, hotEntries, o)
        ensures Fits(before + [r], cold, coldEntries, hot, hotEntries, o)
      {
        LastAccepted(before, r, cold, hot, o.fileSize);
        LastFits(before, r, cold, coldEntries, hot, hotEntries, o);
      }
    } else {
      var first := [SMALL];
      OneEstimated(SMALL);
      InlineMisleads(first, r, o.fileSize, 0, o.fileSize, 0, o);
      NothingFits(first, o.fileSize, o);
      assert [first] + [r] == [first, r];
    }
  }

  /** A small value that stays in the tree. */
  const SMALL: Write := Write(VEntry(seq(20, _ => 0), seq(54, _ => 0), 0, 0, 0), false, false)

  lemma NothingFits(first: seq<Write>, offset: nat, o: Options)
    requires offset <= o.fileSize <= MAX_OFFSET && forall v | v in first :: !v.large
    ensures Fits([first], offset, 0, offset, 0, o)
  {
    NothingRouted(first, false);
    NothingRouted(first, true);
    NothingSized(o.crc);
    assert [first][1..] == [];
  }

  lemma {:induction false} LastAccepted(before: seq<seq<Write>>, r: seq<Write>, cold: nat, hot: nat, fileSize: nat)
    requires Accepted(Estimates(before + [r]), cold, hot, fileSize)
    ensures Estimate(r) <= MAX_OFFSET
    decreases |before|
  {
    hide Estimate;
    var sizes := Estimates(before + [r]);
    if before != [] {
      assert sizes[1..] == Estimates(before[1..] + [r]);
      LastAccepted(before[1..], r, if cold + sizes[0] >= fileSize then 0 else cold + sizes[0],
                   if hot + sizes[0] >= fileSize then 0 else hot + sizes[0], fileSize);
    }
  }

  lemma {:induction false} LastFits(before: seq<seq<Write>>, r: seq<Write>, cold: nat, coldEntries: nat, hot: nat, hotEntries: nat,
                                    o: Options)
    requires cold <= o.fileSize && hot <= o.fileSize && Fits(before, cold, coldEntries, hot, hotEntries, o) && OptionsOk(o)
    requires forall isHot :: o.fileSize + Size(Routed(r, isHot), o.crc) <= MAX_OFFSET
    ensures Fits(before + [r], cold, coldEntries, hot, hotEntries, o)
    decreases |before|
  {
    hide Size, Routed, ChecksumOk;
    if before == [] {
      assert before + [r] == [r] && [r][1..] == [];
    } else {
      var toCold, toHot := Routed(before[0], false), Routed(before[0], true);
      var c := Rotated(cold + Size(toCold, o.crc), coldEntries + |toCold|, o);
      var h := Rotated(hot + Size(toHot, o.crc), hotEntries + |toHot|, o);
      assert (before + [r])[1..] == before[1..] + [r];
      LastFits(before[1..], r, c.0, c.1, h.0, h.1, o);
    }
  }

  /** Such requests exist: a small value that stays in the tree, near the end of the files, and then
      four values of just under 1 GiB, none larger than a transaction takes. */
  lemma AcceptedIsNotEnough(crc: Checksum, maxEntries: nat, entries: nat)
    requires ChecksumOk(crc) && entries <= maxEntries
    ensures var o := Options(0x3FFF_FFFF, maxEntries, true, crc);
            var big := Write(VEntry(seq(20, _ => 0), seq(0x3FFF_FF00, _ => 0), 0, 0, 0), true, false);
            var (reqs, offset) := ([[SMALL], [big, big, big, big]], o.fileSize - 50);
            && OptionsOk(o) && |big.entry.value| <= o.fileSize
            && Accepted(Estimates(reqs), offset, offset, o.fileSize) && !Fits(reqs, offset, entries, offset, entries, o)
  {
    hide EncodeEntry, Fits, Accepted;
    var o := Options(0x3FFF_FFFF, maxEntries, true, crc);
    var big := Write(VEntry(seq(20, _ => 0), seq(0x3FFF_FF00, _ => 0), 0, 0, 0), true, false);
    FourEstimated(big);
    FourSized(big, crc);
    OneEstimated(SMALL);
    InlineMisleads([SMALL], [big, big, big, big], o.fileSize - 50, entries, o.fileSize - 50, entries, o);
  }

  function EstimateOf(w: Write): nat {
    MAX_HEADER_SIZE + |w.entry.key| + |w.entry.value| + CRC_SIZE
  }

  lemma EstimateMore(req: seq<Write>, w: Write)
    ensures Estimate(req + [w]) == Estimate(req) + EstimateOf(w)
  {
    assert (req + [w])[..|req|] == req;
  }

  lemma OneEstimated(w: Write)
    ensures Estimate([w]) == EstimateOf(w)
  {
    EstimateMore([], w);
    assert [] + [w] == [w];
  }

  lemma FourEstimated(w: Write)
    ensures Estimate([w, w, w, w]) == 4 * EstimateOf(w)
  {
    hide Estimate;
    OneEstimated(w);
    EstimateMore([w], w);
    EstimateMore([w, w], w);
    EstimateMore([w, w, w], w);
    assert [w] + [w] == [w, w] && [w, w] + [w] == [w, w, w] && [w, w, w] + [w] == [w, w, w, w];
  }

  lemma SizeMore(req: seq<Write>, w: Write, crc: Checksum)
    requires ChecksumOk(crc) && w.large && !w.hot
    ensures Size(Routed(req + [w], false), crc) >= Size(Routed(req, false), crc) + |w.entry.key| + |w.entry.value| + CRC_SIZE
  {
    hide EncodeEntry;
    assert (req + [w])[..|req|] == req;
    EncodedAtLeast(Stored(w.entry), crc);
    PackedMore(Routed(req, false), Stored(w.entry), crc);
  }

  lemma FourSized(w: Write, crc: Checksum)
    requires ChecksumOk(crc) && w.large && !w.hot
    ensures Size(Routed([w, w, w, w], false), crc) >= 4 * (|w.entry.key| + |w.entry.value| + CRC_SIZE)
  {
    hide Size, Routed;
    SizeMore([], w, crc);
    SizeMore([w], w, crc);
    SizeMore([w, w], w, crc);
    SizeMore([w, w, w], w, crc);
    assert [] + [w] == [w] && [w] + [w] == [w, w] && [w, w] + [w] == [w, w, w] && [w, w, w] + [w] == [w, w, w, w];
  }

  lemma {:induction false} NothingRouted(req: seq<Write>, isHot: bool)
    requires forall v | v in req :: !v.large
    ensures Routed(req, isHot) == []
  {
    if req != [] {
      NothingRouted(req[..|req| - 1], isHot);
    }
  }

  lemma EncodedAtLeast(e: VEntry, crc: Checksum)
    requires ChecksumOk(crc)
    ensures |EncodeEntry(e, crc)| >= |e.key| + |e.value| + CRC_SIZE
  {
  }

  /** The entries of a file never overlap: the later of two pointers starts behind the earlier. */
  lemma PointersApart(logs: Logs, p: Pointer, q: Pointer, e: VEntry, f: VEntry, crc: Checksum)
    requires PointsAt(logs, p, e, crc) && PointsAt(logs, q, f, crc) && p != q && p.fid == q.fid
    ensures p.offset + p.len <= q.offset || q.offset + q.len <= p.offset
  {
    hide EncodeEntry, Packed;
    var log := logs[p.fid];
    var j: nat :| j < |log| && log[j] == e && p == PointerTo(p.fid, log, j, crc);
    var k: nat :| k < |log| && log[k] == f && q == PointerTo(q.fid, log, k, crc);
    if j < k {
      PointersInOrder(log, j, k, crc);
    } else {
      PointersInOrder(log, k, j, crc);
    }
  }
}
