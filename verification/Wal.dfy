/** memtable.go: the write-ahead log of a memtable. Replay applies whole transactions and
    standalone entries only, in order, and stops where the log is cut or makes no sense. */
module Wal {
  import opened Keys
  import opened Wrappers

  const HEADER_SIZE: nat := 20

  /** An entry of a transaction, its finish marker, or an entry of its own; `size` is what it
      takes in the file. A record is readable when all its bytes are there and its checksum holds. */
  datatype Kind = InTxn | Finish(ts: nat) | Alone
  datatype Record = Record(kind: Kind, key: InternalKey, value: int, size: nat)

  /** What must be applied as a whole. */
  datatype Unit = Single(entry: Record) | Txn(entries: seq<Record>, finish: Record)

  predicate UnitOk(u: Unit) {
    match u
    case Single(e) => e.kind.Alone?
    case Txn(es, f) =>
      es != [] && f.kind.Finish? && forall i | 0 <= i < |es| :: es[i].kind.InTxn? && es[i].key.ts == f.kind.ts
  }

  predicate UnitsOk(us: seq<Unit>) {
    forall i | 0 <= i < |us| :: UnitOk(us[i])
  }

  function Records(u: Unit): seq<Record> {
    match u
    case Single(e) => [e]
    case Txn(es, f) => es + [f]
  }

  /** Finish markers are not handed to the memtable. */
  predicate IsEntry(r: Record) {
    !r.kind.Finish?
  }

  function Log(us: seq<Unit>): seq<Record> {
    if us == [] then [] else Records(us[0]) + Log(us[1..])
  }

  function Size(log: seq<Record>): nat {
    if log == [] then 0 else log[0].size + Size(log[1..])
  }

  /** Timestamps start at 1: replay takes 0 for "no transaction open". */
  predicate Stamped(log: seq<Record>) {
    forall i | 0 <= i < |log| :: log[i].key.ts >= 1 && (log[i].kind.Finish? ==> log[i].kind.ts >= 1)
  }

  // ---------- The complete units of a log ----------

  predicate Member(r: Record, ts: nat) {
    r.kind.InTxn? && r.key.ts == ts
  }

  /** How many entries of transaction `ts` the log starts with. */
  function RunLength(log: seq<Record>, ts: nat): (n: nat)
    ensures n <= |log| && forall i | 0 <= i < n :: Member(log[i], ts)
    ensures n < |log| ==> !Member(log[n], ts)
  {
    if log == [] || !Member(log[0], ts) then 0 else 1 + RunLength(log[1..], ts)
  }

  function FirstUnit(log: seq<Record>): (first: Option<Unit>)
    ensures first.Some? ==> UnitOk(first.value) && Records(first.value) <= log && Records(first.value) != []
  {
    if log == [] then None
    else match log[0].kind
      case Alone => Some(Single(log[0]))
      case Finish(_) => None
      case InTxn =>
        var ts := log[0].key.ts;
        var n := RunLength(log, ts);
        if n < |log| && log[n].kind == Finish(ts) then Some(Txn(log[..n], log[n])) else None
  }

  /** The complete units at the front of the log. */
  function Parse(log: seq<Record>): seq<Unit>
    decreases |log|
  {
    match FirstUnit(log)
    case None => []
    case Some(u) => [u] + Parse(log[|Records(u)|..])
  }

  lemma {:induction false} RunLengthIs(log: seq<Record>, n: nat, ts: nat)
    requires n <= |log| && forall i | 0 <= i < n :: Member(log[i], ts)
    requires n < |log| ==> !Member(log[n], ts)
    ensures RunLength(log, ts) == n
  {
    if n > 0 {
      RunLengthIs(log[1..], n - 1, ts);
    }
  }

  /** A unit at the front is the first unit, whatever follows it. */
  lemma FirstUnitIs(u: Unit, rest: seq<Record>)
    requires UnitOk(u)
    ensures FirstUnit(Records(u) + rest) == Some(u)
    ensures Parse(Records(u) + rest) == [u] + Parse(rest)
  {
    var log := Records(u) + rest;
    assert log[|Records(u)|..] == rest;
    if u.Txn? {
      var n, ts := |u.entries|, u.finish.kind.ts;
      assert forall i | 0 <= i < n :: log[i] == u.entries[i];
      RunLengthIs(log, n, ts);
      assert log[..n] == u.entries;
    }
  }

  /** A unit that is not all there is no unit. */
  lemma PartOfUnit(u: Unit, n: nat)
    requires UnitOk(u) && n < |Records(u)|
    ensures Parse(Records(u)[..n]) == []
  {
    var log := Records(u)[..n];
    if n > 0 {
      assert forall i | 0 <= i < n :: log[i] == u.entries[i];
      RunLengthIs(log, n, u.finish.kind.ts);
    }
  }

  /** Every way to read units off the front of a log is a start of its parse. */
  lemma {:induction false} ParseIsLongest(vs: seq<Unit>, rest: seq<Record>)
    requires UnitsOk(vs)
    ensures Parse(Log(vs) + rest) == vs + Parse(rest)
  {
    if vs == [] {
      assert Log(vs) + rest == rest;
    } else {
      ParseIsLongest(vs[1..], rest);
      FirstUnitIs(vs[0], Log(vs[1..]) + rest);
      Associate(Records(vs[0]), Log(vs[1..]), rest);
      Associate([vs[0]], vs[1..], Parse(rest));
      assert vs == [vs[0]] + vs[1..];
    }
  }

  /** The parse is a start of the log. */
  lemma {:induction false} ParseIsThere(log: seq<Record>)
    ensures UnitsOk(Parse(log)) && Log(Parse(log)) <= log
    decreases |log|
  {
    hide FirstUnit, Records, UnitOk;
    if FirstUnit(log).Some? {
      var u := FirstUnit(log).value;
      var n := |Records(u)|;
      ParseIsThere(log[n..]);
      assert log == Records(u) + log[n..];
      assert Parse(log)[0] == u && Parse(log)[1..] == Parse(log[n..]);
      Associate(Records(u), Log(Parse(log[n..])), log[n..][|Log(Parse(log[n..]))|..]);
    }
  }

  // ---------- Replay ----------

  lemma {:induction false} SizeAppend(a: seq<Record>, b: seq<Record>)
    ensures Size(a + b) == Size(a) + Size(b)
  {
    if a == [] {
      assert a + b == b;
    } else {
      assert (a + b)[1..] == a[1..] + b;
      SizeAppend(a[1..], b);
    }
  }

  lemma {:induction false} UnitsAppend(us: seq<Unit>, u: Unit)
    ensures Log(us + [u]) == Log(us) + Records(u)
  {
    hide Records;
    if us == [] {
      assert us + [u] == [u] && Log([u][1..]) == [];
    } else {
      assert (us + [u])[1..] == us[1..] + [u] && (us + [u])[0] == us[0];
      UnitsAppend(us[1..], u);
      Associate(Records(us[0]), Log(us[1..]), Records(u));
    }
  }

  /** What replay has open: the start of transaction `lastCommit`, or nothing. */
  predicate Open(lastCommit: nat, pending: seq<Record>) {
    && (lastCommit == 0 <==> pending == [])
    && forall i | 0 <= i < |pending| :: Member(pending[i], lastCommit)
  }

  /** The record at `i` does not go on with what is open since `from`. */
  lemma Stops(log: seq<Record>, from: nat, i: nat, lastCommit: nat)
    requires from <= i <= |log| && Open(lastCommit, log[from..i]) && Stamped(log)
    requires i < |log| ==>
        match log[i].kind
        case InTxn => lastCommit != 0 && log[i].key.ts != lastCommit
        case Finish(ts) => ts != lastCommit
        case Alone => lastCommit != 0
    ensures Parse(log[from..]) == []
  {
    var at, n := log[from..], i - from;
    assert forall k | 0 <= k < n :: at[k] == log[from..i][k];
    if n > 0 {
      RunLengthIs(at, n, lastCommit);
    }
  }

  /** The record at `i` ends the unit that began at `from`. */
  lemma Closes(log: seq<Record>, from: nat, i: nat, u: Unit)
    requires from <= i < |log| && UnitOk(u) && Records(u) == log[from..i + 1]
    ensures Parse(log[from..]) == [u] + Parse(log[i + 1..])
  {
    assert log[from..] == Records(u) + log[i + 1..];
    FirstUnitIs(u, log[i + 1..]);
  }

  /** The first `from` records are whole units, and the rest is still to be parsed. */
  ghost predicate Parsed(log: seq<Record>, from: nat, units: seq<Unit>) {
    from <= |log| && Parse(log) == units + Parse(log[from..]) && log[..from] == Log(units)
  }

  lemma Complete(log: seq<Record>, from: nat, i: nat, us: seq<Unit>, u: Unit) returns (units: seq<Unit>)
    requires Parsed(log, from, us) && from <= i < |log| && UnitOk(u) && Records(u) == log[from..i + 1]
    ensures units == us + [u] && Parsed(log, i + 1, units)
  {
    units := us + [u];
    Closes(log, from, i, u);
    Associate(us, [u], Parse(log[i + 1..]));
    UnitsAppend(us, u);
    assert log[..i + 1] == log[..from] + log[from..i + 1];
  }

  /** The variables of the replay loop before record `i`. */
  datatype Progress = Progress(
    lastCommit: nat, pending: seq<Record>, recordOffset: nat, validEndOffset: nat, applied: seq<Record>)

  ghost predicate Reached(log: seq<Record>, i: nat, from: nat, units: seq<Unit>, p: Progress) {
    && from <= i <= |log| && Parsed(log, from, units)
    && p.pending == log[from..i] && Open(p.lastCommit, p.pending)
    && p.recordOffset == HEADER_SIZE + Size(log[..i])
    && p.validEndOffset == HEADER_SIZE + Size(log[..from])
    && Sifted(log[..from], IsEntry, p.applied)
  }

  /** Replay has ended behind the complete units, and has handed over each of their records but the
      finish markers, once and in order. */
  ghost predicate Replayed(log: seq<Record>, validEndOffset: nat, applied: seq<Record>) {
    var n := |Log(Parse(log))|;
    && n <= |log| && log[..n] == Log(Parse(log))
    && validEndOffset == HEADER_SIZE + Size(log[..n])
    && Sifted(log[..n], IsEntry, applied)
  }

  lemma Ends(log: seq<Record>, i: nat, from: nat, units: seq<Unit>, p: Progress)
    requires Reached(log, i, from, units, p) && Stamped(log)
    requires i < |log| ==>
        match log[i].kind
        case InTxn => p.lastCommit != 0 && log[i].key.ts != p.lastCommit
        case Finish(ts) => ts != p.lastCommit
        case Alone => p.lastCommit != 0
    ensures Replayed(log, p.validEndOffset, p.applied)
  {
    hide Sifted;
    Stops(log, from, i, p.lastCommit);
    assert units + [] == units;
    assert Parse(log) == units;
  }

  lemma NextOffset(log: seq<Record>, i: nat)
    requires i < |log|
    ensures Size(log[..i + 1]) == Size(log[..i]) + log[i].size
  {
    SizeAppend(log[..i], [log[i]]);
    assert log[..i + 1] == log[..i] + [log[i]];
  }

  /** One more entry of the open transaction. */
  lemma Collects(log: seq<Record>, i: nat, from: nat, units: seq<Unit>, p: Progress)
    requires Reached(log, i, from, units, p) && i < |log| && log[i].kind.InTxn? && Stamped(log)
    requires p.lastCommit == 0 || p.lastCommit == log[i].key.ts
    ensures Reached(log, i + 1, from, units,
                    p.(lastCommit := log[i].key.ts, pending := p.pending + [log[i]], recordOffset := p.recordOffset + log[i].size))
  {
    hide Parsed, Size, Sifted;
    NextOffset(log, i);
    assert log[from..i + 1] == log[from..i] + [log[i]];
  }

  /** A finish marker or a standalone entry completes a unit. */
  lemma Delivers(log: seq<Record>, i: nat, from: nat, us: seq<Unit>, p: Progress, u: Unit) returns (units: seq<Unit>)
    requires Reached(log, i, from, us, p) && i < |log| && UnitOk(u) && Records(u) == p.pending + [log[i]]
    ensures var offset := p.recordOffset + log[i].size;
            Reached(log, i + 1, i + 1, units, Progress(0, [], offset, offset, p.applied + if u.Txn? then p.pending else [log[i]]))
  {
    hide Sifted, Parse, FirstUnit, Parsed, Log, Size;
    HandedOver(log, i, from, p, u);
    assert log[from..i + 1] == p.pending + [log[i]];
    units := Complete(log, from, i, us, u);
    NextOffset(log, i);
  }

  /** What of the unit that record `i` completes is handed over. */
  lemma HandedOver(log: seq<Record>, i: nat, from: nat, p: Progress, u: Unit)
    requires from <= i < |log| && p.pending == log[from..i] && UnitOk(u) && Records(u) == p.pending + [log[i]]
    requires Sifted(log[..from], IsEntry, p.applied)
    ensures Sifted(log[..i + 1], IsEntry, p.applied + if u.Txn? then p.pending else [log[i]])
  {
    hide Sifted;
    assert Records(u)[|p.pending|] == log[i];
    assert log[..i] == log[..from] + p.pending && log[..i + 1] == log[..i] + [log[i]];
    match u
    case Single(e) =>
      assert p.pending == [] && log[i] == e;
      assert log[..i] == log[..from];
      SiftMore(log[..i], IsEntry, p.applied, e);
    case Txn(es, f) =>
      assert Records(u)[..|es|] == es && (p.pending + [log[i]])[..|es|] == p.pending;
      SiftAll(log[..from], IsEntry, p.applied, p.pending);
      SiftMore(log[..i], IsEntry, p.applied + p.pending, f);
  }

  /** iterate, over the readable records of the file. */
  method Iterate(log: seq<Record>) returns (validEndOffset: nat, applied: seq<Record>)
    requires Stamped(log)
    ensures Replayed(log, validEndOffset, applied)
  {
    hide Sifted, SiftedAt;
    var lastCommit: nat, pending: seq<Record> := 0, [];
    var recordOffset: nat := HEADER_SIZE;
    validEndOffset, applied := HEADER_SIZE, [];
    ghost var units: seq<Unit>, from := [], 0;
    SiftNothing(IsEntry);
    for i := 0 to |log|
      invariant Reached(log, i, from, units, Progress(lastCommit, pending, recordOffset, validEndOffset, applied))
    {
      hide Parsed, Stamped, Open, Size, Log, Parse, RunLength, FirstUnit, Sifted;
      ghost var p := Progress(lastCommit, pending, recordOffset, validEndOffset, applied);
      var e := log[i];
      recordOffset := recordOffset + e.size;
      match e.kind
      case InTxn =>
        if lastCommit == 0 {
          lastCommit := e.key.ts;
        }
        if lastCommit != e.key.ts {
          Ends(log, i, from, units, p);
          return;
        }
        Collects(log, i, from, units, p);
        pending := pending + [e];
      case Finish(ts) =>
        if lastCommit != ts {
          Ends(log, i, from, units, p);
          return;
        }
        units := Delivers(log, i, from, units, p, Txn(pending, e));
        lastCommit := 0;
        validEndOffset := recordOffset;
        applied := applied + pending;
        pending, from := [], i + 1;
      case Alone =>
        if lastCommit != 0 {
          Ends(log, i, from, units, p);
          return;
        }
        units := Delivers(log, i, from, units, p, Single(e));
        validEndOffset := recordOffset;
        applied, from := applied + [e], i + 1;
    }
    Ends(log, |log|, from, units, Progress(lastCommit, pending, recordOffset, validEndOffset, applied));
  }

  // ---------- A crash ----------

  /** The records that can still be read when `room` bytes are left of the file after the header. */
  function Cut(log: seq<Record>, room: int): seq<Record> {
    if log == [] || log[0].size > room then [] else [log[0]] + Cut(log[1..], room - log[0].size)
  }

  /** The longest run of whole units in `room` bytes. */
  function Fitting(us: seq<Unit>, room: int): seq<Unit> {
    if us == [] || Size(Records(us[0])) > room then []
    else [us[0]] + Fitting(us[1..], room - Size(Records(us[0])))
  }

  /** What fits stays, and the cut goes on behind it. */
  lemma {:induction false} CutAfter(a: seq<Record>, b: seq<Record>, room: int)
    requires Size(a) <= room
    ensures Cut(a + b, room) == a + Cut(b, room - Size(a))
  {
    if a == [] {
      assert a + b == b;
    } else {
      assert (a + b)[1..] == a[1..] + b;
      CutAfter(a[1..], b, room - a[0].size);
    }
  }

  /** What does not fit loses its end. */
  lemma {:induction false} CutWithin(a: seq<Record>, b: seq<Record>, room: int) returns (n: nat)
    requires room < Size(a) && a != []
    ensures n < |a| && Cut(a + b, room) == a[..n]
  {
    if a[0].size > room {
      n := 0;
    } else {
      assert (a + b)[1..] == a[1..] + b;
      var k := CutWithin(a[1..], b, room - a[0].size);
      n := k + 1;
      assert a[..n] == [a[0]] + a[1..][..k];
    }
  }

  /** Cut a log of whole units anywhere: replay finds exactly the units that end at or before the
      cut, and never part of a transaction. */
  lemma {:induction false} CutFindsWholeUnits(us: seq<Unit>, room: int)
    requires UnitsOk(us)
    ensures Parse(Cut(Log(us), room)) == Fitting(us, room)
  {
    if us != [] {
      var first, rest := Records(us[0]), Log(us[1..]);
      if Size(first) > room {
        var n := CutWithin(first, rest, room);
        PartOfUnit(us[0], n);
      } else {
        CutAfter(first, rest, room);
        CutFindsWholeUnits(us[1..], room - Size(first));
        FirstUnitIs(us[0], Cut(rest, room - Size(first)));
      }
    }
  }

  /** Unit `i` ends at or before the cut. */
  predicate EndsWithin(us: seq<Unit>, i: nat, room: int)
    requires i < |us|
  {
    Size(Log(us[..i + 1])) <= room
  }

  /** Which units lie before the cut. */
  lemma {:induction false} FittingIs(us: seq<Unit>, room: int)
    ensures Fitting(us, room) <= us
    ensures forall i | 0 <= i < |us| :: i < |Fitting(us, room)| <==> EndsWithin(us, i, room)
  {
    hide Records;
    if us != [] {
      var size := Size(Records(us[0]));
      if size <= room {
        FittingIs(us[1..], room - size);
        assert us == [us[0]] + us[1..];
      }
      forall i | 0 <= i < |us| ensures i < |Fitting(us, room)| <==> EndsWithin(us, i, room) {
        LogFirst(us, i);
        if i > 0 && size <= room {
          assert i - 1 < |Fitting(us[1..], room - size)| <==> EndsWithin(us[1..], i - 1, room - size);
        }
      }
    }
  }

  lemma LogFirst(us: seq<Unit>, i: nat)
    requires i < |us|
    ensures Size(Log(us[..i + 1])) == Size(Records(us[0])) + Size(Log(us[1..][..i]))
  {
    assert us[..i + 1][1..] == us[1..][..i];
    SizeAppend(Records(us[0]), Log(us[1..][..i]));
  }

  lemma {:induction false} UnitInLog(us: seq<Unit>, i: nat)
    requires i < |us|
    ensures forall r | r in Records(us[i]) :: r in Log(us)
  {
    if i > 0 {
      UnitInLog(us[1..], i - 1);
    }
  }

  /** Replay after a crash at any byte: exactly the units that end at or before the cut are handed
      over, entry by entry and in order. A transaction that was cut leaves nothing behind, and one
      that was not is there with all its entries. */
  lemma TransactionsAreWhole(us: seq<Unit>, room: int, validEndOffset: nat, applied: seq<Record>) returns (m: nat)
    requires UnitsOk(us) && Replayed(Cut(Log(us), room), validEndOffset, applied)
    ensures m <= |us| && forall i | 0 <= i < |us| :: i < m <==> EndsWithin(us, i, room)
    ensures validEndOffset == HEADER_SIZE + Size(Log(us[..m])) && Sifted(Log(us[..m]), IsEntry, applied)
    ensures forall i, e | 0 <= i < m && us[i].Txn? && e in us[i].entries :: e in applied
  {
    hide Parse, Log, Size, Cut, Fitting, Sifted;
    CutFindsWholeUnits(us, room);
    FittingIs(us, room);
    m := |Fitting(us, room)|;
    assert us[..m] == Fitting(us, room);
    SiftedHas(Log(us[..m]), IsEntry, applied);
    forall i, e | 0 <= i < m && us[i].Txn? && e in us[i].entries ensures e in applied {
      UnitInLog(us[..m], i);
      assert us[..m][i] == us[i] && UnitOk(us[i]);
      assert e in Records(us[i]) && IsEntry(e);
    }
  }

  lemma ParseOfLog(us: seq<Unit>)
    requires UnitsOk(us)
    ensures Parse(Log(us)) == us
  {
    ParseIsLongest(us, []);
    assert Log(us) + [] == Log(us);
  }

  lemma CutExactly(whole: seq<Record>, rest: seq<Record>)
    requires rest == [] || rest[0].size > 0
    ensures Cut(whole + rest, Size(whole)) == whole
  {
    CutAfter(whole, rest, Size(whole));
  }

  /** Truncating at the offset that replay returned leaves exactly the units it found, and
      replaying finds them again. */
  lemma TruncateIsStable(log: seq<Record>, us: seq<Unit>)
    requires us == Parse(log) && forall i | 0 <= i < |log| :: log[i].size > 0
    ensures Cut(log, Size(Log(us))) == Log(us)
    ensures Parse(Log(us)) == us
  {
    hide Parse, FirstUnit, Records, UnitOk, Log, Size, Cut;
    ParseIsThere(log);
    var n := |Log(us)|;
    assert log == Log(us) + log[n..];
    CutExactly(Log(us), log[n..]);
    ParseOfLog(us);
  }

  /** Writing on after a recovery: the recovered units, then the new ones. */
  lemma AppendAfterRecovery(log: seq<Record>, us: seq<Unit>)
    requires UnitsOk(us)
    ensures Parse(Log(Parse(log)) + Log(us)) == Parse(log) + us
  {
    hide Parse, FirstUnit, Records, UnitOk, Log;
    ParseIsThere(log);
    ParseIsLongest(Parse(log), Log(us));
    ParseOfLog(us);
  }
}
