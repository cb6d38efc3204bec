/** What transactions can count on to happen: the commit mark arrives, a waiting transaction can always
    go on, clean-up forgets what it may, and a commit is refused for a cause only. */
module TxnProgress {
  import opened Keys
  import opened Watermark
  import opened WatermarkRuns
  import opened Oracle
  import opened Transactions
  import opened Serializability
  import opened Wrappers

  // ---------- The marks arrive ----------

  /** Some commit in flight has this timestamp or an older one. */
  ghost predicate Pending(s: System, ts: nat) {
    exists i: nat :: i <= ts && InFlight(s, i)
  }

  lemma MarkReaches(cfg: Config, s: System, ts: nat)
    requires Channels(cfg, s) && s.txnAt == |s.o.txnSent| && ts < s.o.nextTxnTs && !Pending(s, ts)
    ensures ts <= TxnDoneUntil(cfg, s)
  {
    hide Legal, Run, Balance, InFlight;
    assert s.o.txnSent[..s.txnAt] == s.o.txnSent;
    RunInvariant(cfg.base, true, s.o.txnSent);
    if ts > cfg.base {
      forall i: nat | i <= ts ensures Balance(s.o.txnSent, i) == 0 {
        assert !InFlight(s, i);
      }
      Reaches(cfg.base, true, s.o.txnSent, ts);
    }
  }

  /** Once the queue of the commit mark is empty, the mark has reached a timestamp that was given out
      exactly if no commit up to there is in flight. */
  lemma MarkIsExact(cfg: Config, events: seq<Event>, ts: nat)
    requires ValidConfig(cfg) && IsRun(cfg, events) && cfg.base <= ts
    requires After(cfg, events).txnAt == |After(cfg, events).o.txnSent|
    ensures var s := After(cfg, events);
            ts <= TxnDoneUntil(cfg, s) <==> ts < s.o.nextTxnTs && !Pending(s, ts)
  {
    hide Legal, Run, Balance, InFlight;
    RunsKeepInvariant(cfg, events);
    var s := After(cfg, events);
    if ts < s.o.nextTxnTs && !Pending(s, ts) {
      MarkReaches(cfg, s, ts);
    }
    DoneUntilBounded(cfg, true, s.o.txnSent, s.txnAt, s.o.nextTxnTs);
    if Pending(s, ts) {
      var i: nat :| i <= ts && InFlight(s, i);
      NeverPasses(cfg.base, true, s.o.txnSent, s.txnAt, i);
    }
  }

  /** With no commit in flight and the queue empty, the commit mark stands at the last timestamp given
      out, and every waiting transaction can start. */
  lemma AllCanStart(cfg: Config, events: seq<Event>)
    requires ValidConfig(cfg) && IsRun(cfg, events) && Serializability.Settled(After(cfg, events))
    requires After(cfg, events).txnAt == |After(cfg, events).o.txnSent|
    ensures var s := After(cfg, events);
            && TxnDoneUntil(cfg, s) == s.o.nextTxnTs - 1
            && forall id | Is(s, id, Waiting) :: Enabled(cfg, s, Ready(id))
  {
    hide TxnDoneUntil, ReadChannel, TxnChannel, Bookkeeping, StoreMatches, Snapshots, Retained, Unconflicted;
    RunsKeepInvariant(cfg, events);
    var s := After(cfg, events);
    assert cfg.base < s.o.nextTxnTs;
    MarkIsExact(cfg, events, s.o.nextTxnTs - 1);
    MarkIsExact(cfg, events, s.o.nextTxnTs);
  }

  /** The read mark too: once its queue is empty it has reached the snapshot of every transaction that
      no open reader is at or below. */
  lemma ReadMarkReaches(cfg: Config, events: seq<Event>, id: ClientId)
    requires ValidConfig(cfg) && IsRun(cfg, events) && id in After(cfg, events).clients
    requires After(cfg, events).readAt == |After(cfg, events).o.readSent|
    ensures var s := After(cfg, events);
            var ts := s.clients[id].t.readTs;
            ts <= ReadDoneUntil(cfg, s.o, s.readAt)
            || exists j :: j in s.clients && !s.clients[j].t.doneRead && s.clients[j].t.readTs <= ts
  {
    hide Legal, Run, Balance;
    RunsKeepInvariant(cfg, events);
    var s := After(cfg, events);
    var ts := s.clients[id].t.readTs;
    assert s.o.readSent[..s.readAt] == s.o.readSent;
    if forall j | j in s.clients && !s.clients[j].t.doneRead :: ts < s.clients[j].t.readTs {
      forall i: nat | i <= ts ensures Balance(s.o.readSent, i) == 0 {
        assert Reading(s, i) == {};
      }
      Reaches(cfg.base, false, s.o.readSent, ts);
    }
  }

  // ---------- A waiting transaction can go on ----------

  lemma OneMore(cfg: Config, events: seq<Event>, e: Event)
    requires IsRun(cfg, events) && Enabled(cfg, After(cfg, events), e)
    ensures IsRun(cfg, events + [e]) && After(cfg, events + [e]) == Step(cfg, After(cfg, events), e)
  {
    assert (events + [e])[..|events|] == events;
  }

  /** Only pending writes are applied. */
  ghost predicate WithinPending(s: System) {
    forall id | id in s.clients && s.clients[id].phase.Committing? ::
      s.clients[id].phase.applied <= s.clients[id].t.pendingWrites.Keys
  }

  lemma {:induction false} AppliedIsPending(cfg: Config, events: seq<Event>)
    requires IsRun(cfg, events)
    ensures WithinPending(After(cfg, events))
  {
    if events != [] {
      AppliedIsPending(cfg, events[..|events| - 1]);
      WithinKept(cfg, After(cfg, events[..|events| - 1]), events[|events| - 1]);
    }
  }

  lemma WithinKept(cfg: Config, s: System, e: Event)
    requires WithinPending(s) && Enabled(cfg, s, e)
    ensures WithinPending(Step(cfg, s, e))
  {
    hide HasConflict, Lookup, TxnDoneUntil, ReadDoneUntil;
  }

  /** Nobody else is touched. */
  ghost predicate OthersSame(s: System, t: System, id: ClientId) {
    s.clients.Keys == t.clients.Keys && forall j | j in s.clients && j != id :: t.clients[j] == s.clients[j]
  }

  predicate Helps(e: Event) {
    e.Apply? || e.FinishCommit? || e.TxnMarkStep?
  }

  lemma AddEvent(cfg: Config, events: seq<Event>, e: Event, rest: seq<Event>)
    requires Helps(e) && (forall x | x in rest :: Helps(x)) && IsRun(cfg, events + [e] + rest)
    ensures IsRun(cfg, events + ([e] + rest)) && After(cfg, events + ([e] + rest)) == After(cfg, events + [e] + rest)
    ensures forall x | x in [e] + rest :: Helps(x)
  {
    assert events + [e] + rest == events + ([e] + rest);
  }

  lemma Pair(cfg: Config, events: seq<Event>, a: seq<Event>, b: seq<Event>)
    requires (forall x | x in a :: Helps(x)) && (forall x | x in b :: Helps(x)) && IsRun(cfg, events + a + b)
    ensures IsRun(cfg, events + (a + b)) && After(cfg, events + (a + b)) == After(cfg, events + a + b)
    ensures forall x | x in a + b :: Helps(x)
  {
    assert events + a + b == events + (a + b);
  }

  lemma NotYetApplied(pending: map<UserKey, Option<Value>>, applied: set<UserKey>) returns (key: UserKey)
    requires applied <= pending.Keys && pending.Keys != applied
    ensures key in pending && key !in applied
  {
    assert (forall k | k in pending.Keys :: k in applied) ==> pending.Keys == applied;
    key :| key in pending.Keys && key !in applied;
  }

  /** A commit in flight applies what is left of its writes and reports itself done. */
  lemma {:induction false} FinishOne(cfg: Config, events: seq<Event>, id: ClientId) returns (more: seq<Event>)
    requires ValidConfig(cfg) && IsRun(cfg, events) && id in After(cfg, events).clients
    requires After(cfg, events).clients[id].phase.Committing?
    ensures IsRun(cfg, events + more) && forall e | e in more :: Helps(e)
    ensures OthersSame(After(cfg, events), After(cfg, events + more), id)
    ensures After(cfg, events + more).clients[id].phase.Committed?
    decreases After(cfg, events).clients[id].t.pendingWrites.Keys - After(cfg, events).clients[id].phase.applied
  {
    hide Step, Serializability.Invariant;
    AppliedIsPending(cfg, events);
    RunsKeepInvariant(cfg, events);
    var s := After(cfg, events);
    var c := s.clients[id];
    Counters(cfg, s);
    var pending, applied := c.t.pendingWrites, c.phase.applied;
    assert applied <= pending.Keys;
    if pending.Keys == applied {
      var e := FinishCommit(id);
      StepFinish(cfg, s, e);
      OneMore(cfg, events, e);
      more := [e];
    } else {
      var key := NotYetApplied(pending, applied);
      var e := Apply(id, key);
      StepApply(cfg, s, e);
      OneMore(cfg, events, e);
      var rest := FinishOne(cfg, events + [e], id);
      AddEvent(cfg, events, e, rest);
      more := [e] + rest;
    }
  }

  lemma Counters(cfg: Config, s: System)
    requires Serializability.Invariant(cfg, s)
    ensures s.readAt <= |s.o.readSent| && s.txnAt <= |s.o.txnSent| && s.o.nextTxnTs > 0
  {
  }

  lemma StepApply(cfg: Config, s: System, e: Event)
    requires Enabled(cfg, s, e) && e.Apply?
    ensures var t := Step(cfg, s, e);
            && OthersSame(s, t, e.id) && t.clients[e.id].phase.Committing? && t.clients[e.id].t == s.clients[e.id].t
            && t.clients[e.id].phase.applied == s.clients[e.id].phase.applied + {e.key}
  {
  }

  lemma StepFinish(cfg: Config, s: System, e: Event)
    requires Enabled(cfg, s, e) && e.FinishCommit?
    ensures OthersSame(s, Step(cfg, s, e), e.id) && Step(cfg, s, e).clients[e.id].phase.Committed?
  {
  }

  ghost function Flying(s: System): set<ClientId> {
    set id | id in s.clients && s.clients[id].phase.Committing?
  }

  /** Who is not committing is left alone. */
  ghost predicate RestSame(s: System, t: System) {
    s.clients.Keys == t.clients.Keys && forall j | j in s.clients && !s.clients[j].phase.Committing? :: t.clients[j] == s.clients[j]
  }

  lemma {:induction false} FinishAll(cfg: Config, events: seq<Event>) returns (more: seq<Event>)
    requires ValidConfig(cfg) && IsRun(cfg, events)
    ensures IsRun(cfg, events + more) && forall e | e in more :: Helps(e)
    ensures Serializability.Settled(After(cfg, events + more)) && RestSame(After(cfg, events), After(cfg, events + more))
    decreases Flying(After(cfg, events))
  {
    var s := After(cfg, events);
    if Flying(s) == {} {
      more := [];
      assert events + [] == events;
      assert forall id | id in s.clients :: id !in Flying(s);
    } else {
      var id :| id in Flying(s);
      var one := FinishOne(cfg, events, id);
      var t := After(cfg, events + one);
      assert Flying(t) == Flying(s) - {id};
      var rest := FinishAll(cfg, events + one);
      Pair(cfg, events, one, rest);
      more := one + rest;
    }
  }

  /** The queue of the commit mark is worked off. */
  lemma {:induction false} Drain(cfg: Config, events: seq<Event>) returns (more: seq<Event>)
    requires ValidConfig(cfg) && IsRun(cfg, events)
    ensures IsRun(cfg, events + more) && forall e | e in more :: Helps(e)
    ensures var s, t := After(cfg, events), After(cfg, events + more); t.clients == s.clients && t.txnAt == |t.o.txnSent|
    decreases |After(cfg, events).o.txnSent| - After(cfg, events).txnAt
  {
    hide Serializability.Invariant;
    RunsKeepInvariant(cfg, events);
    var s := After(cfg, events);
    Counters(cfg, s);
    if s.txnAt < |s.o.txnSent| {
      OneMore(cfg, events, TxnMarkStep);
      var rest := Drain(cfg, events + [TxnMarkStep]);
      AddEvent(cfg, events, TxnMarkStep, rest);
      more := [TxnMarkStep] + rest;
    } else {
      more := [];
      assert events + [] == events;
    }
  }

  /** From every reachable state a waiting transaction can be let go by the commits in flight coming to
      their end and the commit mark being worked off, and nothing else. */
  lemma WaitEnds(cfg: Config, events: seq<Event>, id: ClientId) returns (more: seq<Event>)
    requires ValidConfig(cfg) && IsRun(cfg, events) && Is(After(cfg, events), id, Waiting)
    ensures (forall e | e in more :: Helps(e)) && IsRun(cfg, events + more + [Ready(id)])
    ensures Is(After(cfg, events + more + [Ready(id)]), id, Active)
  {
    var ends := FinishAll(cfg, events);
    var steps := Drain(cfg, events + ends);
    Pair(cfg, events, ends, steps);
    more := ends + steps;
    AllCanStart(cfg, events + more);
    OneMore(cfg, events + more, Ready(id));
  }

  // ---------- Commits are refused for a cause ----------

  /** Operation `i` is a read that went to the store. */
  ghost predicate ReadsStored(ops: seq<Op>, i: nat) {
    i < |ops| && ops[i].Read? && ops[i].key !in Execute(ops[..i], map[])
  }

  ghost predicate ReadsPrint(cfg: Config, ops: seq<Op>, i: nat, f: Fingerprint) {
    ReadsStored(ops, i) && cfg.fingerprint(ops[i].key) == f
  }

  /** Every fingerprint recorded is that of a key read from the store, or written. */
  ghost predicate Recorded(cfg: Config, c: Client) {
    && (forall f | f in c.t.readKeys :: exists i :: ReadsPrint(cfg, c.ops, i, f))
    && forall f | f in c.t.conflictKeys :: exists k :: k in c.t.pendingWrites && cfg.fingerprint(k) == f
  }

  lemma ReadsLater(ops: seq<Op>, op: Op, i: nat)
    requires ReadsStored(ops, i)
    ensures ReadsStored(ops + [op], i) && (ops + [op])[i] == ops[i]
  {
    assert (ops + [op])[..i] == ops[..i];
  }

  lemma RecordedGet(cfg: Config, c: Client, key: UserKey, result: Option<Value>)
    requires Bookkeeping(cfg, c) && Recorded(cfg, c)
    ensures Recorded(cfg, c.(t := Looked(c.t, cfg.fingerprint, key), ops := c.ops + [Read(key, result)]))
  {
    hide Execute, Tracks;
    var t, ops := Looked(c.t, cfg.fingerprint, key), c.ops + [Read(key, result)];
    forall f | f in t.readKeys ensures exists i :: ReadsPrint(cfg, ops, i, f) {
      if f in c.t.readKeys {
        var i :| ReadsPrint(cfg, c.ops, i, f);
        ReadsLater(c.ops, Read(key, result), i);
        assert ReadsPrint(cfg, ops, i, f);
      } else {
        assert ops[..|c.ops|] == c.ops;
        assert ReadsPrint(cfg, ops, |c.ops|, f);
      }
    }
  }

  lemma RecordedSet(cfg: Config, c: Client, key: UserKey, value: Option<Value>)
    requires Recorded(cfg, c)
    ensures Recorded(cfg, c.(t := Written(c.t, true, cfg.fingerprint, key, value), ops := c.ops + [Write(key, value)]))
  {
    hide Execute;
    var t, ops := Written(c.t, true, cfg.fingerprint, key, value), c.ops + [Write(key, value)];
    forall f | f in t.readKeys ensures exists i :: ReadsPrint(cfg, ops, i, f) {
      var i :| ReadsPrint(cfg, c.ops, i, f);
      ReadsLater(c.ops, Write(key, value), i);
      assert ReadsPrint(cfg, ops, i, f);
    }
    forall f | f in t.conflictKeys ensures exists k :: k in t.pendingWrites && cfg.fingerprint(k) == f {
      if f in c.t.conflictKeys {
        var k :| k in c.t.pendingWrites && cfg.fingerprint(k) == f;
        assert k in t.pendingWrites;
      } else {
        assert key in t.pendingWrites;
      }
    }
  }

  lemma RecordedSame(cfg: Config, a: Client, b: Client)
    requires Recorded(cfg, a) && b.ops == a.ops && b.t.readKeys == a.t.readKeys && b.t.conflictKeys == a.t.conflictKeys
    requires b.t.pendingWrites == a.t.pendingWrites
    ensures Recorded(cfg, b)
  {
  }

  lemma RecordedKept(cfg: Config, s: System, e: Event, id: ClientId)
    requires forall j | j in s.clients :: Bookkeeping(cfg, s.clients[j]) && Recorded(cfg, s.clients[j])
    requires Enabled(cfg, s, e) && id in Step(cfg, s, e).clients
    ensures Recorded(cfg, Step(cfg, s, e).clients[id])
  {
    hide Bookkeeping, Recorded, HasConflict, Lookup;
    var d := Step(cfg, s, e).clients[id];
    if id !in s.clients {
      FreshRecorded(cfg, d);
    } else if e.Get? && e.id == id {
      RecordedGet(cfg, s.clients[id], e.key, ReadResult(s.clients[id].t, Lookup(s.store, e.key, s.clients[id].t.readTs), e.key));
    } else if e.Set? && e.id == id {
      RecordedSet(cfg, s.clients[id], e.key, e.value);
    } else {
      RecordedSame(cfg, s.clients[id], d);
    }
  }

  lemma FreshRecorded(cfg: Config, c: Client)
    requires c.t.readKeys == [] && c.t.conflictKeys == {}
    ensures Recorded(cfg, c)
  {
  }

  lemma {:induction false} RunsRecord(cfg: Config, events: seq<Event>)
    requires ValidConfig(cfg) && IsRun(cfg, events)
    ensures forall id | id in After(cfg, events).clients :: Recorded(cfg, After(cfg, events).clients[id])
  {
    hide Recorded, Bookkeeping, Enabled, Step;
    if events != [] {
      var front, e := events[..|events| - 1], events[|events| - 1];
      RunsRecord(cfg, front);
      RunsKeepInvariant(cfg, front);
      forall id | id in After(cfg, events).clients ensures Recorded(cfg, After(cfg, events).clients[id]) {
        RecordedKept(cfg, After(cfg, front), e, id);
      }
    }
  }

  /** Transaction `j` was given a timestamp after the snapshot of `id`, and wrote a key with the
      fingerprint of one that `id` read from the store. */
  ghost predicate OvertakenBy(cfg: Config, s: System, id: ClientId, j: ClientId, i: nat, k: UserKey)
    requires id in s.clients
  {
    var c := s.clients[id];
    && j in s.clients && Stamped(s.clients[j]) && c.t.readTs < s.clients[j].phase.ts && k in s.clients[j].t.pendingWrites
    && ReadsPrint(cfg, c.ops, i, cfg.fingerprint(k))
  }

  lemma {:induction false} TracksAt(cfg: Config, ops: seq<Op>, t: TxnState, i: nat)
    requires Tracks(cfg, ops, t) && t.update && ReadsStored(ops, i)
    ensures cfg.fingerprint(ops[i].key) in t.readKeys
  {
    var front := ops[..|ops| - 1];
    if i < |front| {
      assert front[..i] == ops[..i];
      TracksAt(cfg, front, t, i);
    } else {
      assert ops[..i] == front;
    }
  }

  /** A commit is refused exactly when some transaction that was given a timestamp since wrote what it
      has read from the store, fingerprints being taken for keys. */
  lemma RefusedExactly(cfg: Config, events: seq<Event>, id: ClientId, n: nat)
    requires ValidConfig(cfg) && IsRun(cfg, events) && Enabled(cfg, After(cfg, events), Commit(id, n))
    ensures var s, t := After(cfg, events), Step(cfg, After(cfg, events), Commit(id, n));
            t.clients[id].phase.Refused? <==> exists j, i, k :: OvertakenBy(cfg, s, id, j, i, k)
  {
    hide Lookup, Execute, Tracks, Step, Enabled;
    RunsKeepInvariant(cfg, events);
    RunsRecord(cfg, events);
    var s := After(cfg, events);
    StillReading(cfg, s, id, n);
    CleanupIsInvisible(cfg, events, id);
    var c := s.clients[id];
    if FullHistoryConflict(s, c.t) {
      var j, r :| j in s.clients && Stamped(s.clients[j]) && c.t.readTs < s.clients[j].phase.ts
        && r in c.t.readKeys && r in s.clients[j].t.conflictKeys;
      var i :| ReadsPrint(cfg, c.ops, i, r);
      var k :| k in s.clients[j].t.pendingWrites && cfg.fingerprint(k) == r;
      assert OvertakenBy(cfg, s, id, j, i, k);
    }
    if j, i, k :| OvertakenBy(cfg, s, id, j, i, k) {
      TracksAt(cfg, c.ops, c.t, i);
      assert cfg.fingerprint(k) in c.t.readKeys && cfg.fingerprint(k) in s.clients[j].t.conflictKeys;
    }
  }

  /** Who asks for a commit has not given up its snapshot, and may write. */
  lemma StillReading(cfg: Config, s: System, id: ClientId, n: nat)
    requires Serializability.Invariant(cfg, s) && Enabled(cfg, s, Commit(id, n))
    ensures id in s.clients && !s.clients[id].t.doneRead && s.clients[id].t.update
    ensures Step(cfg, s, Commit(id, n)).clients[id].phase.Refused? <==> HasConflict(s.o.committedTxns, s.clients[id].t)
  {
  }

  // ---------- Clean-up ----------

  lemma GrantForgets(o: OracleState, t: TxnState, mark: nat)
    requires o.detectConflicts && forall c | c in o.committedTxns :: c.ts > o.lastCleanupTs
    ensures var g := Granted(o, t, mark);
            && g.lastCleanupTs == mark
            && forall x :: x in g.committedTxns <==>
                 x == CommittedTxn(o.nextTxnTs, t.conflictKeys) || (x in o.committedTxns && x.ts > mark)
  {
  }

  lemma StepGrants(cfg: Config, s: System, id: ClientId, n: nat)
    requires Enabled(cfg, s, Commit(id, n)) && !HasConflict(s.o.committedTxns, s.clients[id].t)
    ensures id in s.clients && s.readAt + n <= |DoneRead(s.o, s.clients[id].t).readSent|
    ensures Step(cfg, s, Commit(id, n)).o ==
            Granted(s.o, s.clients[id].t, ReadDoneUntil(cfg, DoneRead(s.o, s.clients[id].t), s.readAt + n))
  {
    hide ReadDoneUntil, HasConflict, Granted;
  }

  lemma AboveCleanup(cfg: Config, s: System)
    requires Serializability.Invariant(cfg, s)
    ensures s.o.detectConflicts && forall c | c in s.o.committedTxns :: c.ts > s.o.lastCleanupTs
  {
    hide Channels, Bookkeeping, StoreMatches, Snapshots, Unconflicted;
  }

  /** A granted commit leaves the oracle with exactly the commits above the read mark as it was loaded,
      and its own. */
  lemma CleanupForgets(cfg: Config, events: seq<Event>, id: ClientId, n: nat)
    requires ValidConfig(cfg) && IsRun(cfg, events) && Enabled(cfg, After(cfg, events), Commit(id, n))
    requires !HasConflict(After(cfg, events).o.committedTxns, After(cfg, events).clients[id].t)
    ensures var s, t := After(cfg, events), Step(cfg, After(cfg, events), Commit(id, n));
            var c := s.clients[id];
            var mark := ReadDoneUntil(cfg, DoneRead(s.o, c.t), s.readAt + n);
            && t.o.lastCleanupTs == mark
            && forall x :: x in t.o.committedTxns <==>
                 x == CommittedTxn(s.o.nextTxnTs, c.t.conflictKeys) || (x in s.o.committedTxns && x.ts > mark)
  {
    hide ReadDoneUntil, Serializability.Invariant, HasConflict, Granted, Enabled, Step;
    RunsKeepInvariant(cfg, events);
    var s := After(cfg, events);
    StepGrants(cfg, s, id, n);
    AboveCleanup(cfg, s);
    GrantForgets(s.o, s.clients[id].t, ReadDoneUntil(cfg, DoneRead(s.o, s.clients[id].t), s.readAt + n));
  }
}
