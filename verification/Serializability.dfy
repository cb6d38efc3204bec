/** Every run of `Transactions` is equivalent to running the committed transactions one at a
    time in commit-timestamp order. */
module Serializability {
  import opened Keys
  import opened Watermark
  import opened WatermarkRuns
  import opened Oracle
  import opened Transactions
  import opened Wrappers

  // ---------- Invariants ----------

  ghost function Reading(s: System, ts: nat): set<ClientId> {
    set id | id in s.clients && Reads(s.clients[id].t, ts)
  }

  predicate Reads(t: TxnState, ts: nat) {
    t.readTs == ts && !t.doneRead
  }

  ghost predicate Flies(s: System, id: ClientId, ts: nat) {
    id in s.clients && s.clients[id].phase.Committing? && s.clients[id].phase.ts == ts
  }

  ghost predicate InFlight(s: System, ts: nat) {
    exists id :: Flies(s, id, ts)
  }

  /** The channels carry well-formed mark sequences, with one outstanding mark for each open reader
      and for each commit in flight, and no other. */
  ghost predicate ReadChannel(cfg: Config, s: System) {
    && s.readAt <= |s.o.readSent| && Legal(cfg.base, false, s.o.readSent)
    && (forall i: nat | Begin(i) in s.o.readSent :: i < s.o.nextTxnTs)
    && (forall i: nat :: Balance(s.o.readSent, i) == |Reading(s, i)|)
    && (forall id | id in s.clients :: Begin(s.clients[id].t.readTs) in s.o.readSent)
    && s.o.lastCleanupTs <= ReadDoneUntil(cfg, s.o, s.readAt)
  }

  ghost predicate TxnChannel(cfg: Config, s: System) {
    && s.txnAt <= |s.o.txnSent| && Legal(cfg.base, true, s.o.txnSent)
    && (forall i: nat | Begin(i) in s.o.txnSent :: i < s.o.nextTxnTs)
    && (forall i: nat | cfg.base < i < s.o.nextTxnTs :: Begin(i) in s.o.txnSent)
    && (forall i: nat :: Balance(s.o.txnSent, i) == if InFlight(s, i) then 1 else 0)
  }

  ghost predicate Channels(cfg: Config, s: System) {
    cfg.base < s.o.nextTxnTs && ReadChannel(cfg, s) && TxnChannel(cfg, s)
  }

  ghost predicate Times(cfg: Config, s: System) {
    && s.o.detectConflicts
    && (forall id | id in s.clients :: cfg.base <= s.clients[id].t.readTs < s.o.nextTxnTs)
    && (forall id | id in s.clients && Stamped(s.clients[id]) ::
        s.clients[id].t.readTs < s.clients[id].phase.ts < s.o.nextTxnTs)
    && OneEachTs(s) && SnapshotsSettled(s)
    && (forall id | id in s.clients && s.clients[id].t.doneRead ::
        Stamped(s.clients[id]) || s.clients[id].t.discarded)
  }

  ghost predicate OneEachTs(s: System) {
    forall i, j | i in s.clients && j in s.clients && Stamped(s.clients[i]) && Stamped(s.clients[j])
      && s.clients[i].phase.ts == s.clients[j].phase.ts :: i == j
  }

  /** What is still being applied lies above the snapshot of every transaction that can read. */
  ghost predicate SnapshotsSettled(s: System) {
    forall i, j | i in s.clients && j in s.clients && !s.clients[i].phase.Waiting?
      && s.clients[j].phase.Committing? :: s.clients[i].t.readTs < s.clients[j].phase.ts
  }

  /** The retained commits are exactly those above the last clean-up. */
  ghost predicate Retained(s: System) {
    && (forall id | id in s.clients && Stamped(s.clients[id]) && s.clients[id].phase.ts > s.o.lastCleanupTs ::
        CommittedTxn(s.clients[id].phase.ts, s.clients[id].t.conflictKeys) in s.o.committedTxns)
    && (forall c | c in s.o.committedTxns :: c.ts > s.o.lastCleanupTs && exists id :: Wrote(s, id, c))
  }

  ghost predicate Wrote(s: System, id: ClientId, c: CommittedTxn) {
    id in s.clients && Stamped(s.clients[id])
    && s.clients[id].phase.ts == c.ts && s.clients[id].t.conflictKeys == c.conflictKeys
  }

  /** Fingerprints cover the reads that went to the store and the writes. */
  ghost predicate Tracks(cfg: Config, ops: seq<Op>, t: TxnState) {
    ops != [] ==>
      var before, op := ops[..|ops| - 1], ops[|ops| - 1];
      && Tracks(cfg, before, t)
      && (op.Read? && op.key !in Execute(before, map[]) && t.update ==> cfg.fingerprint(op.key) in t.readKeys)
  }

  ghost predicate Bookkeeping(cfg: Config, c: Client) {
    && c.t.pendingWrites == Execute(c.ops, map[])
    && (!c.t.update ==> c.t.pendingWrites == map[])
    && (forall k | k in c.t.pendingWrites :: cfg.fingerprint(k) in c.t.conflictKeys)
    && Tracks(cfg, c.ops, c.t)
    && (c.phase.Waiting? ==> c.ops == [])
    && (Stamped(c) ==> c.t.update)
  }

  /** No one committed, between a transaction's snapshot and its own commit, a key it read. */
  ghost predicate Unconflicted(s: System) {
    forall i, j, r | i in s.clients && j in s.clients && Stamped(s.clients[i]) && Stamped(s.clients[j])
      && s.clients[i].t.readTs < s.clients[j].phase.ts < s.clients[i].phase.ts
      && r in s.clients[i].t.readKeys :: r !in s.clients[j].t.conflictKeys
  }

  ghost predicate Visible(c: Client, key: UserKey) {
    c.phase.Committed? || (c.phase.Committing? && key in c.phase.applied)
  }

  ghost predicate Stores(s: System, id: ClientId, ik: InternalKey) {
    && id in s.clients && Succeeded(s.clients[id]) && s.clients[id].phase.ts == ik.ts
    && ik.user in s.clients[id].t.pendingWrites && Visible(s.clients[id], ik.user)
  }

  /** The store holds the initial versions and what was applied, nothing else. */
  ghost predicate StoreMatches(cfg: Config, s: System) {
    && (forall ik | ik in cfg.initial && ik.ts <= cfg.base :: ik in s.store && s.store[ik] == cfg.initial[ik])
    && (forall ik | ik in s.store && ik.ts <= cfg.base :: ik in cfg.initial)
    && (forall id, ik | Stores(s, id, ik) ::
        ik in s.store && s.store[ik] == s.clients[id].t.pendingWrites[ik.user])
    && (forall ik | ik in s.store && ik.ts > cfg.base :: exists id :: Stores(s, id, ik))
  }

  ghost predicate Snapshots(cfg: Config, s: System) {
    forall id | id in s.clients ::
      Replays(s.clients[id].ops, SerialDb(cfg, s.clients, s.clients[id].t.readTs))
  }

  ghost predicate Invariant(cfg: Config, s: System) {
    && Channels(cfg, s) && Times(cfg, s) && Retained(s) && Unconflicted(s) && StoreMatches(cfg, s)
    && (forall id | id in s.clients :: Bookkeeping(cfg, s.clients[id]))
    && Snapshots(cfg, s)
  }

  /** The initial store holds only versions up to the base timestamp. */
  ghost predicate ValidConfig(cfg: Config) {
    forall ik | ik in cfg.initial :: ik.ts <= cfg.base
  }

  // ---------- Channels ----------

  lemma Sent(cfg: Config, strict: bool, log: seq<Mark>, m: Mark)
    requires Legal(cfg.base, strict, log) && MayFollow(cfg.base, strict, log, m)
    ensures Legal(cfg.base, strict, log + [m])
    ensures forall i: nat :: Balance(log + [m], i) == Balance(log, i) + Delta(m, i)
    ensures forall x :: x in log + [m] <==> x in log || x == m
    ensures forall p | 0 <= p <= |log| :: (log + [m])[..p] == log[..p]
  {
    assert (log + [m])[..|log|] == log;
  }

  lemma ReadingAddedAt(s: System, t: System, id: ClientId, i: nat)
    requires id in t.clients && !t.clients[id].t.doneRead
    requires id !in s.clients || s.clients[id].t.doneRead
    requires t.clients.Keys == s.clients.Keys + {id}
    requires forall j | j in s.clients && j != id :: t.clients[j] == s.clients[j]
    ensures |Reading(t, i)| == |Reading(s, i)| + if i == t.clients[id].t.readTs then 1 else 0
  {
    var before, now := Reading(s, i), Reading(t, i);
    forall j | j != id ensures j in now <==> j in before {
      assert j in s.clients <==> j in t.clients;
    }
    if Reads(t.clients[id].t, i) {
      assert now == before + {id};
    } else {
      assert now == before;
    }
  }

  lemma ReadingAdded(s: System, t: System, id: ClientId)
    requires id in t.clients && !t.clients[id].t.doneRead
    requires id !in s.clients || s.clients[id].t.doneRead
    requires t.clients.Keys == s.clients.Keys + {id}
    requires forall j | j in s.clients && j != id :: t.clients[j] == s.clients[j]
    ensures forall i: nat :: |Reading(t, i)| == |Reading(s, i)| + if i == t.clients[id].t.readTs then 1 else 0
  {
    forall i: nat ensures |Reading(t, i)| == |Reading(s, i)| + if i == t.clients[id].t.readTs then 1 else 0 {
      ReadingAddedAt(s, t, id, i);
    }
  }

  lemma ReadingSame(s: System, t: System, id: ClientId)
    requires id in s.clients && t.clients.Keys == s.clients.Keys
    requires forall j | j in s.clients && j != id :: t.clients[j] == s.clients[j]
    requires t.clients[id].t.readTs == s.clients[id].t.readTs
    requires t.clients[id].t.doneRead == s.clients[id].t.doneRead
    ensures forall i: nat :: Reading(t, i) == Reading(s, i)
  {
  }

  lemma MarkMoves(cfg: Config, strict: bool, log: seq<Mark>, p: nat, q: nat)
    requires Legal(cfg.base, strict, log) && p <= q <= |log|
    ensures Run(cfg.base, log[..p]).doneUntil <= Run(cfg.base, log[..q]).doneUntil
  {
    LegalPrefix(cfg.base, strict, log, q);
    Monotone(cfg.base, strict, log[..q], p);
    assert log[..q][..p] == log[..p];
  }

  lemma DoneUntilBounded(cfg: Config, strict: bool, log: seq<Mark>, p: nat, bound: nat)
    requires Legal(cfg.base, strict, log) && p <= |log| && cfg.base < bound
    requires forall i: nat | Begin(i) in log :: i < bound
    ensures Run(cfg.base, log[..p]).doneUntil < bound
  {
    LegalPrefix(cfg.base, strict, log, p);
    RunInvariant(cfg.base, strict, log[..p]);
    var u := Run(cfg.base, log[..p]).doneUntil;
    if u != cfg.base {
      assert Begin(u) in log[..p];
      var at :| 0 <= at < p && log[at] == Begin(u);
      assert Begin(u) in log;
    }
  }

  /** A reader whose Done has not been sent holds the read mark at or below its snapshot. */
  lemma OpenReader(cfg: Config, s: System, id: ClientId)
    requires ReadChannel(cfg, s) && id in s.clients && !s.clients[id].t.doneRead
    ensures Balance(s.o.readSent, s.clients[id].t.readTs) > 0
    ensures forall p | 0 <= p <= |s.o.readSent| :: ReadDoneUntil(cfg, s.o, p) <= s.clients[id].t.readTs
  {
    var ts := s.clients[id].t.readTs;
    assert id in Reading(s, ts);
    forall p | 0 <= p <= |s.o.readSent| ensures ReadDoneUntil(cfg, s.o, p) <= ts {
      NeverPasses(cfg.base, false, s.o.readSent, p, ts);
    }
  }

  ghost predicate OneChanged(s: System, t: System, id: ClientId) {
    id in s.clients && id in t.clients && t.clients == s.clients[id := t.clients[id]]
  }

  lemma ReadClosed(cfg: Config, s: System, t: System, id: ClientId)
    requires cfg.base < s.o.nextTxnTs && ReadChannel(cfg, s) && OneChanged(s, t, id)
    requires t.clients[id].t.readTs == s.clients[id].t.readTs && t.clients[id].t.doneRead
    requires t.o.readSent == DoneRead(s.o, s.clients[id].t).readSent
    ensures Legal(cfg.base, false, t.o.readSent) && s.o.readSent <= t.o.readSent
    ensures forall i: nat :: Balance(t.o.readSent, i) == |Reading(t, i)|
    ensures forall i: nat | Begin(i) in t.o.readSent :: i < s.o.nextTxnTs
    ensures ReadDoneUntil(cfg, t.o, s.readAt) == ReadDoneUntil(cfg, s.o, s.readAt)
  {
    hide Reading, Balance, Legal, Run;
    var c := s.clients[id].t;
    if c.doneRead {
      ReadingSame(s, t, id);
    } else {
      OpenReader(cfg, s, id);
      Sent(cfg, false, s.o.readSent, Done(c.readTs));
      ReadingAdded(t, s, id);
    }
  }

  /** The two assertions of newCommitTs hold: clean-up never goes back and never passes the
      timestamp about to be given out. */
  lemma CleanupBounds(cfg: Config, s: System, id: ClientId, n: nat)
    requires cfg.base < s.o.nextTxnTs && ReadChannel(cfg, s) && id in s.clients
    requires s.readAt + n <= |DoneRead(s.o, s.clients[id].t).readSent|
    ensures s.o.lastCleanupTs <= ReadDoneUntil(cfg, DoneRead(s.o, s.clients[id].t), s.readAt + n) < s.o.nextTxnTs
  {
    hide Legal, Balance, Reading, Run;
    var c := s.clients[id];
    var o := DoneRead(s.o, c.t);
    ReadClosed(cfg, s, With(s, id, c.(t := c.t.(doneRead := true))).(o := o), id);
    MarkMoves(cfg, false, o.readSent, s.readAt, s.readAt + n);
    DoneUntilBounded(cfg, false, o.readSent, s.readAt + n, s.o.nextTxnTs);
  }

  lemma IsInFlight(s: System, id: ClientId)
    requires id in s.clients && s.clients[id].phase.Committing?
    ensures InFlight(s, s.clients[id].phase.ts)
  {
    assert Flies(s, id, s.clients[id].phase.ts);
  }

  lemma NotYetInFlight(cfg: Config, s: System)
    requires Times(cfg, s)
    ensures !InFlight(s, s.o.nextTxnTs)
  {
  }

  /** A grant adds one commit in flight, an end takes one away. */
  lemma FlightMoves(cfg: Config, s: System, t: System, id: ClientId, m: Mark, i: nat)
    requires Times(cfg, s) && OneChanged(s, t, id)
    requires if t.clients[id].phase.Committing?
             then m == Begin(t.clients[id].phase.ts) && !s.clients[id].phase.Committing?
             else s.clients[id].phase.Committing? && m == Done(s.clients[id].phase.ts)
    ensures InFlight(t, i) <==> (m == Begin(i) || (InFlight(s, i) && m != Done(i)))
  {
    if InFlight(t, i) {
      var j :| Flies(t, j, i);
      if j != id {
        assert t.clients[j] == s.clients[j];
        assert Flies(s, j, i);
      }
    }
    if m == Begin(i) {
      assert Flies(t, id, i);
    } else if InFlight(s, i) && m != Done(i) {
      var j :| Flies(s, j, i);
      assert t.clients[j] == s.clients[j];
      assert Flies(t, j, i);
    }
  }

  lemma TxnMarkSent(cfg: Config, s: System, t: System, id: ClientId, m: Mark)
    requires TxnChannel(cfg, s) && Times(cfg, s) && OneChanged(s, t, id)
    requires t.txnAt == s.txnAt && t.o.txnSent == s.o.txnSent + [m]
    requires if t.clients[id].phase.Committing?
             then m == Begin(s.o.nextTxnTs) && t.clients[id].phase.ts == s.o.nextTxnTs && t.o.nextTxnTs == s.o.nextTxnTs + 1
                  && cfg.base < s.o.nextTxnTs && !s.clients[id].phase.Committing?
             else s.clients[id].phase.Committing? && m == Done(s.clients[id].phase.ts) && t.o.nextTxnTs == s.o.nextTxnTs
    ensures TxnChannel(cfg, t)
  {
    hide InFlight, Run, Legal, Balance, Times;
    NotYetInFlight(cfg, s);
    if m.Done? {
      IsInFlight(s, id);
    }
    Sent(cfg, true, s.o.txnSent, m);
    forall i: nat ensures Balance(t.o.txnSent, i) == if InFlight(t, i) then 1 else 0 {
      FlightMoves(cfg, s, t, id, m, i);
    }
  }

  lemma FlightSame(s: System, t: System)
    requires forall id, ts: nat :: Flies(s, id, ts) <==> Flies(t, id, ts)
    ensures forall i: nat :: InFlight(t, i) <==> InFlight(s, i)
  {
    forall i: nat ensures InFlight(t, i) <==> InFlight(s, i) {
      if j :| Flies(s, j, i) {
        assert Flies(t, j, i);
      }
      if j :| Flies(t, j, i) {
        assert Flies(s, j, i);
      }
    }
  }

  lemma ReadsSame(cfg: Config, s: System, t: System, id: ClientId)
    requires ReadChannel(cfg, s) && OneChanged(s, t, id)
    requires t.o.readSent == s.o.readSent && t.readAt == s.readAt
    requires t.o.lastCleanupTs == s.o.lastCleanupTs && s.o.nextTxnTs <= t.o.nextTxnTs
    requires t.clients[id].t.readTs == s.clients[id].t.readTs
    requires t.clients[id].t.doneRead == s.clients[id].t.doneRead
    ensures ReadChannel(cfg, t)
  {
    ReadingSame(s, t, id);
  }

  /** Steps that send nothing to the commit mark. */
  lemma TxnSame(cfg: Config, s: System, t: System)
    requires TxnChannel(cfg, s) && t.o.txnSent == s.o.txnSent && t.o.nextTxnTs == s.o.nextTxnTs && t.txnAt <= |s.o.txnSent|
    requires forall id, ts: nat :: Flies(s, id, ts) <==> Flies(t, id, ts)
    ensures TxnChannel(cfg, t)
  {
    hide InFlight, Flies, Legal, Balance;
    FlightSame(s, t);
  }

  lemma ReadBegun(cfg: Config, s: System, t: System, id: ClientId, c: Client)
    requires ReadChannel(cfg, s) && cfg.base < s.o.nextTxnTs && id !in s.clients && t.clients == s.clients[id := c]
    requires forall j | j in s.clients :: s.clients[j].t.readTs < s.o.nextTxnTs
    requires c.t.readTs == s.o.nextTxnTs - 1 && !c.t.doneRead && t.readAt == s.readAt
    requires t.o == s.o.(readSent := s.o.readSent + [Begin(s.o.nextTxnTs - 1)])
    ensures ReadChannel(cfg, t)
  {
    hide Legal, Balance, Run, Reading;
    Sent(cfg, false, s.o.readSent, Begin(s.o.nextTxnTs - 1));
    ReadingAdded(s, t, id);
  }

  lemma ChannelsBegin(cfg: Config, s: System, e: Event)
    requires Channels(cfg, s) && Times(cfg, s) && Enabled(cfg, s, e) && e.BeginTxn?
    ensures Channels(cfg, Step(cfg, s, e))
  {
    hide Times, ReadChannel, TxnChannel;
    var t := Step(cfg, s, e);
    ReadTimes(cfg, s);
    ReadBegun(cfg, s, t, e.id, t.clients[e.id]);
    TxnSame(cfg, s, t);
  }

  lemma ReadTimes(cfg: Config, s: System)
    requires Times(cfg, s)
    ensures forall j | j in s.clients :: s.clients[j].t.readTs < s.o.nextTxnTs
  {
  }

  lemma ChannelsGrant(cfg: Config, s: System, e: Event)
    requires Channels(cfg, s) && Times(cfg, s) && Enabled(cfg, s, e) && e.Commit?
    requires !HasConflict(s.o.committedTxns, s.clients[e.id].t)
    ensures Channels(cfg, Step(cfg, s, e))
  {
    hide TxnChannel, Legal, Balance, Run, Reading, Times, HasConflict;
    var t := Step(cfg, s, e);
    ReadClosed(cfg, s, t, e.id);
    CleanupBounds(cfg, s, e.id, e.readSteps);
    TxnMarkSent(cfg, s, t, e.id, Begin(s.o.nextTxnTs));
  }

  lemma ChannelsEnd(cfg: Config, s: System, e: Event)
    requires Channels(cfg, s) && Times(cfg, s) && Enabled(cfg, s, e) && (e.FinishCommit? || e.FailCommit?)
    ensures Channels(cfg, Step(cfg, s, e))
  {
    var t := Step(cfg, s, e);
    ReadsSame(cfg, s, t, e.id);
    TxnMarkSent(cfg, s, t, e.id, Done(s.clients[e.id].phase.ts));
  }

  lemma ChannelsDiscard(cfg: Config, s: System, e: Event)
    requires Channels(cfg, s) && Times(cfg, s) && Enabled(cfg, s, e) && e.Discard?
    ensures Channels(cfg, Step(cfg, s, e))
  {
    hide TxnChannel, Legal, Balance, Run, Reading, Times;
    var t := Step(cfg, s, e);
    ReadClosed(cfg, s, t, e.id);
    assert TxnChannel(cfg, t) by {
      TxnSame(cfg, s, t);
    }
  }

  lemma ChannelsMarkStep(cfg: Config, s: System, e: Event)
    requires Channels(cfg, s) && Enabled(cfg, s, e) && (e.ReadMarkStep? || e.TxnMarkStep?)
    ensures Channels(cfg, Step(cfg, s, e))
  {
    var t := Step(cfg, s, e);
    TxnSame(cfg, s, t);
    assert forall i: nat :: Reading(t, i) == Reading(s, i);
    MarkMoves(cfg, false, s.o.readSent, s.readAt, t.readAt);
  }

  /** Steps that send no mark and close no reader. */
  lemma ChannelsQuiet(cfg: Config, s: System, t: System, id: ClientId)
    requires Channels(cfg, s) && OneChanged(s, t, id)
    requires t.o == s.o && t.readAt == s.readAt && t.txnAt == s.txnAt
    requires t.clients[id].t.readTs == s.clients[id].t.readTs
    requires t.clients[id].t.doneRead == s.clients[id].t.doneRead
    requires t.clients[id].phase.Committing? == s.clients[id].phase.Committing?
    requires t.clients[id].phase.Committing? ==> t.clients[id].phase.ts == s.clients[id].phase.ts
    ensures Channels(cfg, t)
  {
    TxnSame(cfg, s, t);
    ReadsSame(cfg, s, t, id);
  }

  lemma ChannelsKept(cfg: Config, s: System, e: Event)
    requires Channels(cfg, s) && Times(cfg, s) && Enabled(cfg, s, e)
    ensures Channels(cfg, Step(cfg, s, e))
  {
    var t := Step(cfg, s, e);
    match e
    case BeginTxn(_, _) => ChannelsBegin(cfg, s, e);
    case Commit(id, _) =>
      if HasConflict(s.o.committedTxns, s.clients[id].t) {
        ChannelsQuiet(cfg, s, t, id);
      } else {
        ChannelsGrant(cfg, s, e);
      }
    case FinishCommit(_) => ChannelsEnd(cfg, s, e);
    case FailCommit(_) => ChannelsEnd(cfg, s, e);
    case Discard(_) => ChannelsDiscard(cfg, s, e);
    case ReadMarkStep => ChannelsMarkStep(cfg, s, e);
    case TxnMarkStep => ChannelsMarkStep(cfg, s, e);
    case Ready(id) => ChannelsQuiet(cfg, s, t, id);
    case Get(id, _) => ChannelsQuiet(cfg, s, t, id);
    case Set(id, _, _) => ChannelsQuiet(cfg, s, t, id);
    case Apply(id, _) => ChannelsQuiet(cfg, s, t, id);
  }

  // ---------- Times, retained commits and conflicts ----------

  lemma OneEachTsKept(s: System, t: System, id: ClientId)
    requires OneEachTs(s) && OneChanged(s, t, id) && Stamped(s.clients[id]) == Stamped(t.clients[id])
    requires Stamped(s.clients[id]) ==> s.clients[id].phase.ts == t.clients[id].phase.ts
    ensures OneEachTs(t)
  {
  }

  lemma SettledActivated(s: System, t: System, id: ClientId)
    requires SnapshotsSettled(s) && OneChanged(s, t, id)
    requires t.clients[id].t == s.clients[id].t && t.clients[id].phase.Active?
    requires forall j | j in s.clients && s.clients[j].phase.Committing? :: s.clients[id].t.readTs < s.clients[j].phase.ts
    ensures SnapshotsSettled(t)
  {
  }

  lemma TimesActivated(cfg: Config, s: System, t: System, id: ClientId)
    requires Times(cfg, s) && OneChanged(s, t, id) && t.o == s.o
    requires t.clients[id].t == s.clients[id].t && s.clients[id].phase.Waiting? && t.clients[id].phase.Active?
    requires forall j | j in s.clients && s.clients[j].phase.Committing? :: s.clients[id].t.readTs < s.clients[j].phase.ts
    ensures Times(cfg, t)
  {
    hide OneEachTs, SnapshotsSettled;
    OneEachTsKept(s, t, id);
    SettledActivated(s, t, id);
  }

  lemma TimesReady(cfg: Config, s: System, e: Event)
    requires Channels(cfg, s) && Times(cfg, s) && Enabled(cfg, s, e) && e.Ready?
    ensures Times(cfg, Step(cfg, s, e))
  {
    hide Times, Legal, Balance, Run;
    forall j | j in s.clients && s.clients[j].phase.Committing?
      ensures s.clients[e.id].t.readTs < s.clients[j].phase.ts
    {
      assert Flies(s, j, s.clients[j].phase.ts);
      NeverPasses(cfg.base, true, s.o.txnSent, s.txnAt, s.clients[j].phase.ts);
    }
    TimesActivated(cfg, s, Step(cfg, s, e), e.id);
  }

  lemma TimesSame(cfg: Config, s: System, t: System)
    requires Times(cfg, s) && t.clients == s.clients && t.o == s.o
    ensures Times(cfg, t)
  {
  }

  lemma TimesOne(cfg: Config, s: System, t: System, id: ClientId)
    requires Times(cfg, s) && OneChanged(s, t, id)
    requires t.o.nextTxnTs == s.o.nextTxnTs && t.o.detectConflicts == s.o.detectConflicts
    requires var a, b := s.clients[id], t.clients[id];
             && a.t.readTs == b.t.readTs && a.phase.Waiting? == b.phase.Waiting?
             && (b.phase.Committing? ==> a.phase.Committing?)
             && Stamped(a) == Stamped(b) && (Stamped(a) ==> a.phase.ts == b.phase.ts)
             && (b.t.doneRead ==> a.t.doneRead || b.t.discarded) && (a.t.discarded ==> b.t.discarded)
    ensures Times(cfg, t)
  {
  }

  lemma TimesBegin(cfg: Config, s: System, t: System, id: ClientId, update: bool)
    requires Times(cfg, s) && id !in s.clients && cfg.base < s.o.nextTxnTs
    requires t.clients == s.clients[id := Client(Fresh(s.o.nextTxnTs - 1, update), Waiting, [])]
    requires t.o.nextTxnTs == s.o.nextTxnTs && t.o.detectConflicts == s.o.detectConflicts
    ensures Times(cfg, t)
  {
  }

  lemma TimesGrant(cfg: Config, s: System, t: System, id: ClientId)
    requires Times(cfg, s) && OneChanged(s, t, id) && t.o.detectConflicts == s.o.detectConflicts
    requires s.clients[id].phase.Active? && t.clients[id].phase == Committing(s.o.nextTxnTs, {})
    requires t.clients[id].t.readTs == s.clients[id].t.readTs && t.o.nextTxnTs == s.o.nextTxnTs + 1
    ensures Times(cfg, t)
  {
  }

  lemma TimesKept(cfg: Config, s: System, e: Event)
    requires Channels(cfg, s) && Times(cfg, s) && Enabled(cfg, s, e)
    ensures Times(cfg, Step(cfg, s, e))
  {
    hide Times, Legal, Balance, Run, Reading, Execute, Lookup, HasConflict;
    var t := Step(cfg, s, e);
    match e
    case Ready(_) => TimesReady(cfg, s, e);
    case Commit(id, _) =>
      if HasConflict(s.o.committedTxns, s.clients[id].t) {
        TimesOne(cfg, s, t, id);
      } else {
        TimesGrant(cfg, s, t, id);
      }
    case BeginTxn(id, update) => TimesBegin(cfg, s, t, id, update);
    case ReadMarkStep => TimesSame(cfg, s, t);
    case TxnMarkStep => TimesSame(cfg, s, t);
    case FinishCommit(id) => TimesOne(cfg, s, t, id);
    case FailCommit(id) => TimesOne(cfg, s, t, id);
    case Discard(id) => TimesOne(cfg, s, t, id);
    case Get(id, _) => TimesOne(cfg, s, t, id);
    case Set(id, _, _) => TimesOne(cfg, s, t, id);
    case Apply(id, _) => TimesOne(cfg, s, t, id);
  }

  ghost predicate SameCommit(a: Client, b: Client) {
    && Stamped(a) == Stamped(b)
    && (Stamped(a) ==>
        && a.phase.ts == b.phase.ts && a.t.readTs == b.t.readTs
        && a.t.readKeys == b.t.readKeys && a.t.conflictKeys == b.t.conflictKeys)
  }

  /** No step but a granted commit changes what was committed. */
  lemma CommitsSame(cfg: Config, s: System, e: Event)
    requires Enabled(cfg, s, e)
    requires e.Commit? ==> HasConflict(s.o.committedTxns, s.clients[e.id].t)
    ensures var t := Step(cfg, s, e);
            && s.clients.Keys <= t.clients.Keys
            && (forall j | j in t.clients :: if j in s.clients then SameCommit(s.clients[j], t.clients[j]) else !Stamped(t.clients[j]))
            && t.o.committedTxns == s.o.committedTxns && t.o.lastCleanupTs == s.o.lastCleanupTs
  {
  }

  lemma HistoryKept(cfg: Config, s: System, e: Event)
    requires Channels(cfg, s) && Times(cfg, s) && Retained(s) && Unconflicted(s) && Enabled(cfg, s, e)
    requires e.Commit? ==> HasConflict(s.o.committedTxns, s.clients[e.id].t)
    ensures Retained(Step(cfg, s, e)) && Unconflicted(Step(cfg, s, e))
  {
    CommitsSame(cfg, s, e);
    var t := Step(cfg, s, e);
    forall c | c in t.o.committedTxns ensures exists id :: Wrote(t, id, c) {
      var id :| Wrote(s, id, c);
      assert Wrote(t, id, c);
    }
  }

  /** The full history of commits, including those that clean-up has dropped. */
  ghost predicate FullHistoryConflict(s: System, t: TxnState) {
    exists j, r :: j in s.clients && Stamped(s.clients[j]) && t.readTs < s.clients[j].phase.ts
      && r in t.readKeys && r in s.clients[j].t.conflictKeys
  }

  /** Dropping old commits never changes a verdict. */
  lemma VerdictUnaffectedByCleanup(cfg: Config, s: System, id: ClientId)
    requires Channels(cfg, s) && Retained(s) && id in s.clients && !s.clients[id].t.doneRead
    ensures HasConflict(s.o.committedTxns, s.clients[id].t) <==> FullHistoryConflict(s, s.clients[id].t)
  {
    hide TxnChannel, Legal, Balance, Run, ReadDoneUntil, Reading;
    var t := s.clients[id].t;
    if HasConflict(s.o.committedTxns, t) {
      var c, r :| c in s.o.committedTxns && r in t.readKeys && t.readTs < c.ts && r in c.conflictKeys;
      var j :| Wrote(s, j, c);
      assert r in s.clients[j].t.conflictKeys;
    }
    if FullHistoryConflict(s, t) {
      var j, r :| j in s.clients && Stamped(s.clients[j]) && t.readTs < s.clients[j].phase.ts
        && r in t.readKeys && r in s.clients[j].t.conflictKeys;
      OpenReader(cfg, s, id);
      var c := CommittedTxn(s.clients[j].phase.ts, s.clients[j].t.conflictKeys);
      assert ReadDoneUntil(cfg, s.o, s.readAt) <= t.readTs;
      assert c in s.o.committedTxns && r in c.conflictKeys;
    }
  }

  lemma RetainedGranted(cfg: Config, s: System, t: System, id: ClientId, maxReadTs: nat)
    requires Times(cfg, s) && Retained(s) && OneChanged(s, t, id) && !Stamped(s.clients[id])
    requires t.clients[id].phase == Committing(s.o.nextTxnTs, {})
    requires t.clients[id].t.conflictKeys == s.clients[id].t.conflictKeys
    requires s.o.lastCleanupTs <= maxReadTs < s.o.nextTxnTs
    requires t.o.lastCleanupTs == maxReadTs
    requires t.o.committedTxns == Cleanup(s.o, maxReadTs).committedTxns +
        [CommittedTxn(s.o.nextTxnTs, s.clients[id].t.conflictKeys)]
    ensures Retained(t)
  {
    var c := CommittedTxn(s.o.nextTxnTs, s.clients[id].t.conflictKeys);
    assert Wrote(t, id, c);
    forall d | d in t.o.committedTxns ensures d.ts > t.o.lastCleanupTs && exists j :: Wrote(t, j, d) {
      if d != c {
        assert d in s.o.committedTxns;
        var j :| Wrote(s, j, d);
        assert t.clients[j] == s.clients[j];
        assert Wrote(t, j, d);
      }
    }
    forall j | j in t.clients && Stamped(t.clients[j]) && t.clients[j].phase.ts > t.o.lastCleanupTs
      ensures CommittedTxn(t.clients[j].phase.ts, t.clients[j].t.conflictKeys) in t.o.committedTxns
    {
      if j != id {
        assert t.clients[j] == s.clients[j];
      }
    }
  }

  lemma UnconflictedGranted(cfg: Config, s: System, t: System, id: ClientId)
    requires Times(cfg, s) && Unconflicted(s) && OneChanged(s, t, id) && !Stamped(s.clients[id])
    requires !FullHistoryConflict(s, s.clients[id].t)
    requires t.clients[id].phase == Committing(s.o.nextTxnTs, {})
    requires t.clients[id].t == s.clients[id].t.(doneRead := true)
    ensures Unconflicted(t)
  {
  }

  lemma GrantKeepsRetained(cfg: Config, s: System, e: Event)
    requires Channels(cfg, s) && Times(cfg, s) && Retained(s)
    requires Enabled(cfg, s, e) && e.Commit? && !HasConflict(s.o.committedTxns, s.clients[e.id].t)
    ensures Retained(Step(cfg, s, e))
  {
    CleanupBounds(cfg, s, e.id, e.readSteps);
    var m := ReadDoneUntil(cfg, DoneRead(s.o, s.clients[e.id].t), s.readAt + e.readSteps);
    RetainedGranted(cfg, s, Step(cfg, s, e), e.id, m);
  }

  lemma GrantKeepsUnconflicted(cfg: Config, s: System, e: Event)
    requires Channels(cfg, s) && Times(cfg, s) && Retained(s) && Unconflicted(s)
    requires Enabled(cfg, s, e) && e.Commit? && !HasConflict(s.o.committedTxns, s.clients[e.id].t)
    ensures Unconflicted(Step(cfg, s, e))
  {
    VerdictUnaffectedByCleanup(cfg, s, e.id);
    UnconflictedGranted(cfg, s, Step(cfg, s, e), e.id);
  }

  // ---------- Serial execution ----------

  /** A transaction's own writes hide the database; the rest shows through. */
  lemma {:induction false} ExecuteFinds(ops: seq<Op>, db: Db, key: UserKey)
    ensures key in Execute(ops, map[]) ==>
        key in Execute(ops, db) && Execute(ops, db)[key] == Execute(ops, map[])[key]
    ensures key !in Execute(ops, map[]) ==> Find(Execute(ops, db), key) == Find(db, key)
  {
    if ops != [] {
      ExecuteFinds(ops[..|ops| - 1], db, key);
    }
  }

  lemma {:induction false} TracksMore(cfg: Config, ops: seq<Op>, a: TxnState, b: TxnState)
    requires Tracks(cfg, ops, a) && a.update == b.update && forall r | r in a.readKeys :: r in b.readKeys
    ensures Tracks(cfg, ops, b)
  {
    if ops != [] {
      TracksMore(cfg, ops[..|ops| - 1], a, b);
    }
  }

  /** A read set that two databases agree on makes the replay the same on both. */
  lemma {:induction false} ReplaysAgree(cfg: Config, ops: seq<Op>, t: TxnState, a: Db, b: Db)
    requires Replays(ops, a) && Tracks(cfg, ops, t) && t.update
    requires forall k :: cfg.fingerprint(k) in t.readKeys ==> Find(a, k) == Find(b, k)
    ensures Replays(ops, b)
  {
    if ops != [] {
      var before, op := ops[..|ops| - 1], ops[|ops| - 1];
      ReplaysAgree(cfg, before, t, a, b);
      if op.Read? {
        ExecuteFinds(before, a, op.key);
        ExecuteFinds(before, b, op.key);
      }
    }
  }

  ghost predicate UniqueTs(clients: map<ClientId, Client>) {
    forall i, j | i in clients && j in clients && Stamped(clients[i]) && Stamped(clients[j])
        && clients[i].phase.ts == clients[j].phase.ts :: i == j
  }

  lemma SerialAt(cfg: Config, clients: map<ClientId, Client>, id: ClientId, ts: nat)
    requires UniqueTs(clients) && SucceededAt(clients, id, ts) && ts > cfg.base
    ensures SerialDb(cfg, clients, ts) == Execute(clients[id].ops, SerialDb(cfg, clients, ts - 1))
  {
    assert forall j :: SucceededAt(clients, j, ts) ==> j == id;
  }

  /** The serial database at `ts` depends only on the transactions stamped up to `ts`. */
  lemma {:induction false} SerialSame(cfg: Config, a: map<ClientId, Client>, b: map<ClientId, Client>, ts: nat)
    requires UniqueTs(a) && UniqueTs(b)
    requires forall id, n: nat | cfg.base < n <= ts :: SucceededAt(a, id, n) <==> SucceededAt(b, id, n)
    requires forall id, n: nat | cfg.base < n <= ts && SucceededAt(a, id, n) ::
        id in b && a[id].ops == b[id].ops
    ensures SerialDb(cfg, a, ts) == SerialDb(cfg, b, ts)
  {
    if ts > cfg.base {
      SerialSame(cfg, a, b, ts - 1);
      if id :| SucceededAt(a, id, ts) {
        SerialAt(cfg, a, id, ts);
        SerialAt(cfg, b, id, ts);
      }
    }
  }

  lemma {:induction false} LookupSame(a: Store, b: Store, key: UserKey, ts: nat)
    requires forall n: nat | n <= ts :: InternalKey(key, n) in a <==> InternalKey(key, n) in b
    requires forall n: nat | n <= ts && InternalKey(key, n) in a :: a[InternalKey(key, n)] == b[InternalKey(key, n)]
    ensures Lookup(a, key, ts) == Lookup(b, key, ts)
  {
    if InternalKey(key, ts) !in a && ts > 0 {
      LookupSame(a, b, key, ts - 1);
    }
  }

  lemma {:induction false} LookupAbsent(store: Store, key: UserKey, ts: nat)
    requires forall ik | ik in store :: ik.user != key
    ensures Lookup(store, key, ts) == None
  {
    if ts > 0 {
      LookupAbsent(store, key, ts - 1);
    }
  }

  lemma InitialFinds(cfg: Config, key: UserKey)
    ensures Find(InitialDb(cfg), key) == Lookup(cfg.initial, key, cfg.base)
  {
    if key !in InitialDb(cfg) {
      LookupAbsent(cfg.initial, key, cfg.base);
    }
  }

  /** What the transaction stamped `ts` wrote is what a lookup there finds. */
  lemma LookupAtCommit(cfg: Config, s: System, key: UserKey, ts: nat, id: ClientId)
    requires Times(cfg, s) && StoreMatches(cfg, s) && cfg.base < ts && SucceededAt(s.clients, id, ts)
    requires forall j | j in s.clients && s.clients[j].phase.Committing? :: ts < s.clients[j].phase.ts
    ensures var pending := s.clients[id].t.pendingWrites;
            Lookup(s.store, key, ts) == if key in pending then pending[key] else Lookup(s.store, key, ts - 1)
  {
    hide SnapshotsSettled;
    var ik := InternalKey(key, ts);
    assert forall j :: Stores(s, j, ik) ==> j == id;
    assert key in s.clients[id].t.pendingWrites ==> Stores(s, id, ik);
  }

  lemma LookupAtNone(cfg: Config, s: System, key: UserKey, ts: nat)
    requires StoreMatches(cfg, s) && cfg.base < ts && forall id :: !SucceededAt(s.clients, id, ts)
    ensures Lookup(s.store, key, ts) == Lookup(s.store, key, ts - 1)
  {
    var ik := InternalKey(key, ts);
    if ik in s.store {
      var j :| Stores(s, j, ik);
      assert SucceededAt(s.clients, j, ts);
    }
  }

  /** Below every commit in flight, a lookup in the store is a lookup in the serial database. */
  lemma {:induction false} LookupIsSerial(cfg: Config, s: System, key: UserKey, ts: nat)
    requires Times(cfg, s) && StoreMatches(cfg, s) && cfg.base <= ts
    requires forall id | id in s.clients :: Bookkeeping(cfg, s.clients[id])
    requires forall id | id in s.clients && s.clients[id].phase.Committing? :: ts < s.clients[id].phase.ts
    ensures Lookup(s.store, key, ts) == Find(SerialDb(cfg, s.clients, ts), key)
  {
    hide Execute, Lookup, SnapshotsSettled, Tracks;
    if ts == cfg.base {
      InitialLookup(cfg, s, key);
      InitialFinds(cfg, key);
    } else {
      hide StoreMatches;
      LookupIsSerial(cfg, s, key, ts - 1);
      if id :| SucceededAt(s.clients, id, ts) {
        SerialAt(cfg, s.clients, id, ts);
        ExecuteFinds(s.clients[id].ops, SerialDb(cfg, s.clients, ts - 1), key);
        LookupAtCommit(cfg, s, key, ts, id);
      } else {
        LookupAtNone(cfg, s, key, ts);
      }
    }
  }

  lemma InitialLookup(cfg: Config, s: System, key: UserKey)
    requires StoreMatches(cfg, s)
    ensures Lookup(s.store, key, cfg.base) == Lookup(cfg.initial, key, cfg.base)
  {
    LookupSame(s.store, cfg.initial, key, cfg.base);
  }

  // ---------- Bookkeeping, store and snapshots ----------

  lemma BookkeepingGet(cfg: Config, c: Client, key: UserKey, result: Option<Value>)
    requires Bookkeeping(cfg, c) && c.phase.Active?
    ensures Bookkeeping(cfg, c.(t := Looked(c.t, cfg.fingerprint, key), ops := c.ops + [Read(key, result)]))
  {
    var t, ops := Looked(c.t, cfg.fingerprint, key), c.ops + [Read(key, result)];
    assert ops[..|c.ops|] == c.ops;
    TracksMore(cfg, c.ops, c.t, t);
  }

  lemma BookkeepingSet(cfg: Config, c: Client, key: UserKey, value: Option<Value>)
    requires Bookkeeping(cfg, c) && c.phase.Active? && c.t.update
    ensures Bookkeeping(cfg, c.(t := Written(c.t, true, cfg.fingerprint, key, value), ops := c.ops + [Write(key, value)]))
  {
    var t, ops := Written(c.t, true, cfg.fingerprint, key, value), c.ops + [Write(key, value)];
    assert ops[..|c.ops|] == c.ops;
    TracksMore(cfg, c.ops, c.t, t);
  }

  lemma BookkeepingSame(cfg: Config, a: Client, b: Client)
    requires Bookkeeping(cfg, a) && a.ops == b.ops && (b.phase.Waiting? ==> a.phase.Waiting?)
    requires b.t.readKeys == a.t.readKeys && b.t.conflictKeys == a.t.conflictKeys
    requires b.t.pendingWrites == a.t.pendingWrites && b.t.update == a.t.update
    requires Stamped(b) ==> Stamped(a) || a.t.pendingWrites != map[]
    ensures Bookkeeping(cfg, b)
  {
    TracksMore(cfg, a.ops, a.t, b.t);
  }

  lemma BookkeepingFresh(cfg: Config, readTs: nat, update: bool)
    ensures Bookkeeping(cfg, Client(Fresh(readTs, update), Waiting, []))
  {
  }

  lemma BookkeepingKept(cfg: Config, s: System, e: Event, id: ClientId)
    requires forall j | j in s.clients :: Bookkeeping(cfg, s.clients[j])
    requires Enabled(cfg, s, e) && id in Step(cfg, s, e).clients
    ensures Bookkeeping(cfg, Step(cfg, s, e).clients[id])
  {
    hide Bookkeeping, HasConflict, Lookup;
    var d := Step(cfg, s, e).clients[id];
    if id !in s.clients {
      BookkeepingFresh(cfg, s.o.nextTxnTs - 1, e.update);
    } else if e.Get? && e.id == id {
      BookkeepingGet(cfg, s.clients[id], e.key, ReadResult(s.clients[id].t, Lookup(s.store, e.key, s.clients[id].t.readTs), e.key));
    } else if e.Set? && e.id == id {
      BookkeepingSet(cfg, s.clients[id], e.key, e.value);
    } else {
      BookkeepingSame(cfg, s.clients[id], d);
    }
  }

  lemma StoresApplied(s: System, t: System, id: ClientId, put: InternalKey, j: ClientId, ik: InternalKey)
    requires OneChanged(s, t, id) && s.clients[id].phase.Committing? && s.clients[id].phase.ts == put.ts
    requires t.clients[id].t == s.clients[id].t && put.user in s.clients[id].t.pendingWrites
    requires t.clients[id].phase == Committing(put.ts, s.clients[id].phase.applied + {put.user})
    requires j in s.clients && Stamped(s.clients[j]) && s.clients[j].phase.ts == put.ts ==> j == id
    ensures Stores(t, j, put) ==> j == id
    ensures Stores(t, j, ik) ==> j in t.clients && ik.user in t.clients[j].t.pendingWrites
    ensures Stores(t, j, ik) <==> Stores(s, j, ik) || (j == id && ik == put)
    ensures Stores(t, j, ik) ==> j in s.clients && t.clients[j].t.pendingWrites == s.clients[j].t.pendingWrites
  {
    if j != id && j in t.clients {
      assert t.clients[j] == s.clients[j];
    }
  }

  lemma OneAtEachTs(cfg: Config, s: System, i: ClientId, j: ClientId)
    requires Times(cfg, s) && i in s.clients && j in s.clients && Stamped(s.clients[i]) && Stamped(s.clients[j])
    ensures cfg.base < s.clients[i].phase.ts
    ensures s.clients[i].phase.ts == s.clients[j].phase.ts ==> i == j
  {
  }

  lemma StoreApplied(cfg: Config, s: System, t: System, id: ClientId, put: InternalKey)
    requires StoreMatches(cfg, s) && OneChanged(s, t, id) && cfg.base < put.ts
    requires s.clients[id].phase.Committing? && s.clients[id].phase.ts == put.ts
    requires t.clients[id].t == s.clients[id].t && put.user in s.clients[id].t.pendingWrites
    requires t.clients[id].phase == Committing(put.ts, s.clients[id].phase.applied + {put.user})
    requires t.store == s.store[put := s.clients[id].t.pendingWrites[put.user]]
    requires forall j | j in s.clients && Stamped(s.clients[j]) && s.clients[j].phase.ts == put.ts :: j == id
    ensures StoreMatches(cfg, t)
  {
    hide Stores;
    forall j, ik
      ensures Stores(t, j, put) ==> j == id
      ensures Stores(t, j, ik) ==> j in t.clients && ik.user in t.clients[j].t.pendingWrites
      ensures Stores(t, j, ik) <==> Stores(s, j, ik) || (j == id && ik == put)
      ensures Stores(t, j, ik) ==> j in s.clients && t.clients[j].t.pendingWrites == s.clients[j].t.pendingWrites
    {
      StoresApplied(s, t, id, put, j, ik);
    }
    forall j, ik | Stores(t, j, ik) ensures ik in t.store && t.store[ik] == t.clients[j].t.pendingWrites[ik.user] {
      assert ik == put ==> j == id;
    }
    forall ik | ik in t.store && ik.ts > cfg.base ensures exists j :: Stores(t, j, ik) {
      if ik == put {
        assert Stores(t, id, ik);
      } else {
        var j :| Stores(s, j, ik);
        assert Stores(t, j, ik);
      }
    }
  }

  /** Steps that leave the store alone and change which writes are visible at most for a
      transaction with nothing applied. */
  lemma StoreQuiet(cfg: Config, s: System, t: System)
    requires StoreMatches(cfg, s) && t.store == s.store
    requires forall id, ik :: Stores(t, id, ik) <==> Stores(s, id, ik)
    requires forall id, ik | Stores(s, id, ik) ::
        id in t.clients && t.clients[id].t.pendingWrites == s.clients[id].t.pendingWrites
    ensures StoreMatches(cfg, t)
  {
    forall ik | ik in t.store && ik.ts > cfg.base ensures exists id :: Stores(t, id, ik) {
      var id :| Stores(s, id, ik);
      assert Stores(t, id, ik);
    }
  }

  lemma StoresSame(cfg: Config, s: System, e: Event, id: ClientId, ik: InternalKey)
    requires Times(cfg, s) && Enabled(cfg, s, e) && !e.Apply?
    ensures Step(cfg, s, e).store == s.store
    ensures Stores(Step(cfg, s, e), id, ik) <==> Stores(s, id, ik)
    ensures Stores(s, id, ik) ==>
        id in Step(cfg, s, e).clients && Step(cfg, s, e).clients[id].t.pendingWrites == s.clients[id].t.pendingWrites
  {
    hide Times, Legal, Balance, Run, Execute, Lookup, SerialDb;
  }

  lemma StoreKept(cfg: Config, s: System, e: Event)
    requires Times(cfg, s) && StoreMatches(cfg, s) && Enabled(cfg, s, e)
    ensures StoreMatches(cfg, Step(cfg, s, e))
  {
    if e.Apply? {
      forall j | j in s.clients && Stamped(s.clients[j])
        ensures cfg.base < s.clients[j].phase.ts
        ensures s.clients[j].phase.ts == s.clients[e.id].phase.ts ==> j == e.id
      {
        OneAtEachTs(cfg, s, j, e.id);
      }
      StoreApplied(cfg, s, Step(cfg, s, e), e.id, InternalKey(e.key, s.clients[e.id].phase.ts));
    } else {
      StoreUntouched(cfg, s, e);
    }
  }

  lemma StoreUntouched(cfg: Config, s: System, e: Event)
    requires Times(cfg, s) && StoreMatches(cfg, s) && Enabled(cfg, s, e) && !e.Apply?
    ensures StoreMatches(cfg, Step(cfg, s, e))
  {
    hide Step, Enabled, Times;
    var t := Step(cfg, s, e);
    StoresSame(cfg, s, e, 0, InternalKey(0, 0));
    forall id, ik
      ensures Stores(t, id, ik) <==> Stores(s, id, ik)
      ensures Stores(s, id, ik) ==>
          id in t.clients && t.clients[id].t.pendingWrites == s.clients[id].t.pendingWrites
    {
      StoresSame(cfg, s, e, id, ik);
    }
    StoreQuiet(cfg, s, t);
  }

  lemma SuccessKept(cfg: Config, s: System, e: Event, ts: nat, id: ClientId, n: nat)
    requires Times(cfg, s) && Enabled(cfg, s, e) && ts < s.o.nextTxnTs && cfg.base < n <= ts
    requires forall j | j in s.clients && s.clients[j].phase.Committing? :: ts < s.clients[j].phase.ts
    ensures var t := Step(cfg, s, e);
            && (SucceededAt(s.clients, id, n) <==> SucceededAt(t.clients, id, n))
            && (SucceededAt(s.clients, id, n) ==> id in t.clients && t.clients[id].ops == s.clients[id].ops)
  {
    hide Times, Legal, Balance, Run, Execute, Lookup, SerialDb;
  }

  /** A step never changes the serial database below an open snapshot. */
  lemma SerialKept(cfg: Config, s: System, e: Event, ts: nat)
    requires Times(cfg, s) && Enabled(cfg, s, e) && ts < s.o.nextTxnTs && Times(cfg, Step(cfg, s, e))
    requires forall j | j in s.clients && s.clients[j].phase.Committing? :: ts < s.clients[j].phase.ts
    ensures SerialDb(cfg, Step(cfg, s, e).clients, ts) == SerialDb(cfg, s.clients, ts)
  {
    hide Step, Enabled;
    var t := Step(cfg, s, e);
    forall id, n: nat | cfg.base < n <= ts
      ensures SucceededAt(s.clients, id, n) <==> SucceededAt(t.clients, id, n)
      ensures SucceededAt(s.clients, id, n) ==> id in t.clients && t.clients[id].ops == s.clients[id].ops
    {
      SuccessKept(cfg, s, e, ts, id, n);
    }
    SerialSame(cfg, s.clients, t.clients, ts);
  }

  lemma ReadFromSnapshot(cfg: Config, s: System, e: Event)
    requires Times(cfg, s) && StoreMatches(cfg, s) && Enabled(cfg, s, e) && e.Get?
    requires forall id | id in s.clients :: Bookkeeping(cfg, s.clients[id])
    requires Replays(s.clients[e.id].ops, SerialDb(cfg, s.clients, s.clients[e.id].t.readTs))
    ensures var c, d := s.clients[e.id], Step(cfg, s, e).clients[e.id];
            Replays(d.ops, SerialDb(cfg, s.clients, c.t.readTs))
  {
    var c := s.clients[e.id];
    var db := SerialDb(cfg, s.clients, c.t.readTs);
    var ops := Step(cfg, s, e).clients[e.id].ops;
    assert ops[..|c.ops|] == c.ops;
    LookupIsSerial(cfg, s, e.key, c.t.readTs);
    ExecuteFinds(c.ops, db, e.key);
  }

  lemma WaitingHasNoOps(cfg: Config, s: System, e: Event, id: ClientId)
    requires Enabled(cfg, s, e) && id in Step(cfg, s, e).clients
    requires id !in s.clients || (s.clients[id].phase.Waiting? && s.clients[id].ops == [])
    ensures Step(cfg, s, e).clients[id].ops == []
  {
  }

  lemma OpsOf(cfg: Config, s: System, e: Event, id: ClientId)
    requires Enabled(cfg, s, e) && id in s.clients
    ensures id in Step(cfg, s, e).clients
    ensures var c, d := s.clients[id], Step(cfg, s, e).clients[id];
            && d.t.readTs == c.t.readTs
            && if e.Get? && e.id == id then d.ops == c.ops + [Read(e.key, ReadResult(c.t, Lookup(s.store, e.key, c.t.readTs), e.key))]
               else if e.Set? && e.id == id then d.ops == c.ops + [Write(e.key, e.value)]
               else d.ops == c.ops
  {
  }

  lemma SnapshotKept(cfg: Config, s: System, e: Event, id: ClientId)
    requires Times(cfg, s) && StoreMatches(cfg, s) && Enabled(cfg, s, e) && Times(cfg, Step(cfg, s, e))
    requires forall j | j in s.clients :: Bookkeeping(cfg, s.clients[j])
    requires id in s.clients && !s.clients[id].phase.Waiting?
    requires Replays(s.clients[id].ops, SerialDb(cfg, s.clients, s.clients[id].t.readTs))
    ensures var t := Step(cfg, s, e);
            id in t.clients && Replays(t.clients[id].ops, SerialDb(cfg, t.clients, t.clients[id].t.readTs))
  {
    hide Step, Enabled, StoreMatches, Bookkeeping, SerialDb, Execute;
    var c := s.clients[id];
    OpsOf(cfg, s, e, id);
    SerialKept(cfg, s, e, c.t.readTs);
    if e.Get? && e.id == id {
      ReadFromSnapshot(cfg, s, e);
    } else if e.Set? && e.id == id {
      assert (c.ops + [Write(e.key, e.value)])[..|c.ops|] == c.ops;
    }
  }

  lemma InvariantKept(cfg: Config, s: System, e: Event)
    requires Invariant(cfg, s) && Enabled(cfg, s, e)
    ensures Invariant(cfg, Step(cfg, s, e))
  {
    var t := Step(cfg, s, e);
    ChannelsKept(cfg, s, e);
    TimesKept(cfg, s, e);
    if e.Commit? && !HasConflict(s.o.committedTxns, s.clients[e.id].t) {
      GrantKeepsRetained(cfg, s, e);
      GrantKeepsUnconflicted(cfg, s, e);
    } else {
      HistoryKept(cfg, s, e);
    }
    StoreKept(cfg, s, e);
    forall id | id in t.clients ensures Bookkeeping(cfg, t.clients[id]) {
      BookkeepingKept(cfg, s, e, id);
    }
    forall id | id in t.clients
      ensures Replays(t.clients[id].ops, SerialDb(cfg, t.clients, t.clients[id].t.readTs))
    {
      if id in s.clients && !s.clients[id].phase.Waiting? {
        SnapshotKept(cfg, s, e, id);
      } else {
        WaitingHasNoOps(cfg, s, e, id);
      }
    }
  }

  lemma StartInvariant(cfg: Config)
    requires ValidConfig(cfg)
    ensures Invariant(cfg, Start(cfg))
  {
    var s := Start(cfg);
    assert forall i: nat :: Reading(s, i) == {};
  }

  lemma {:induction false} RunsKeepInvariant(cfg: Config, events: seq<Event>)
    requires ValidConfig(cfg) && IsRun(cfg, events)
    ensures Invariant(cfg, After(cfg, events))
  {
    if events == [] {
      StartInvariant(cfg);
    } else {
      RunsKeepInvariant(cfg, events[..|events| - 1]);
      InvariantKept(cfg, After(cfg, events[..|events| - 1]), events[|events| - 1]);
    }
  }

  // ---------- Main results ----------

  ghost predicate Quiescent(cfg: Config, s: System) {
    && Times(cfg, s) && Unconflicted(s)
    && forall id | id in s.clients :: Bookkeeping(cfg, s.clients[id])
  }

  /** Between its snapshot and its commit nobody wrote what a committed transaction read. */
  lemma {:induction false} SnapshotUntilCommit(cfg: Config, s: System, id: ClientId, key: UserKey, ts: nat)
    requires Quiescent(cfg, s) && id in s.clients && Stamped(s.clients[id])
    requires cfg.fingerprint(key) in s.clients[id].t.readKeys
    requires s.clients[id].t.readTs <= ts < s.clients[id].phase.ts
    ensures Find(SerialDb(cfg, s.clients, ts), key) == Find(SerialDb(cfg, s.clients, s.clients[id].t.readTs), key)
  {
    if ts > s.clients[id].t.readTs {
      SnapshotUntilCommit(cfg, s, id, key, ts - 1);
      if j :| SucceededAt(s.clients, j, ts) {
        SerialAt(cfg, s.clients, j, ts);
        ExecuteFinds(s.clients[j].ops, SerialDb(cfg, s.clients, ts - 1), key);
        NotWrittenBetween(s, id, j, cfg.fingerprint(key));
      }
    }
  }

  lemma NotWrittenBetween(s: System, i: ClientId, j: ClientId, r: Fingerprint)
    requires Unconflicted(s) && i in s.clients && j in s.clients && Stamped(s.clients[i]) && Stamped(s.clients[j])
    requires s.clients[i].t.readTs < s.clients[j].phase.ts < s.clients[i].phase.ts
    requires r in s.clients[i].t.readKeys
    ensures r !in s.clients[j].t.conflictKeys
  {
  }

  /** Where a transaction stands in the serial order: just before its commit timestamp, or at
      its snapshot when it got none. */
  function SerialPoint(c: Client): nat {
    if Stamped(c) && c.phase.ts > 0 then c.phase.ts - 1 else c.t.readTs
  }

  lemma SerializableState(cfg: Config, s: System, id: ClientId)
    requires Quiescent(cfg, s) && Snapshots(cfg, s) && id in s.clients
    ensures Replays(s.clients[id].ops, SerialDb(cfg, s.clients, SerialPoint(s.clients[id])))
  {
    var c := s.clients[id];
    if Stamped(c) {
      var a, b := SerialDb(cfg, s.clients, c.t.readTs), SerialDb(cfg, s.clients, SerialPoint(c));
      forall k | cfg.fingerprint(k) in c.t.readKeys ensures Find(a, k) == Find(b, k) {
        SnapshotUntilCommit(cfg, s, id, k, SerialPoint(c));
      }
      ReplaysAgree(cfg, c.ops, c.t, a, b);
    }
  }

  /** Serializability. In every run, each transaction that got a commit timestamp, run alone on
      the serial database just before that timestamp, returns exactly what its reads returned;
      each other transaction does so on the serial database of its snapshot. */
  lemma Serializable(cfg: Config, events: seq<Event>, id: ClientId)
    requires ValidConfig(cfg) && IsRun(cfg, events) && id in After(cfg, events).clients
    ensures var s := After(cfg, events);
            && UniqueTs(s.clients)
            && Replays(s.clients[id].ops, SerialDb(cfg, s.clients, SerialPoint(s.clients[id])))
  {
    RunsKeepInvariant(cfg, events);
    SerializableState(cfg, After(cfg, events), id);
  }

  ghost predicate Settled(s: System) {
    forall id | id in s.clients :: !s.clients[id].phase.Committing?
  }

  lemma SettledState(cfg: Config, s: System, key: UserKey, ts: nat)
    requires Quiescent(cfg, s) && StoreMatches(cfg, s) && Settled(s) && cfg.base <= ts
    ensures Lookup(s.store, key, ts) == Find(SerialDb(cfg, s.clients, ts), key)
  {
    LookupIsSerial(cfg, s, key, ts);
  }

  /** Once no commit is in flight, the store answers every lookup, at every timestamp, like the
      serial database: the final states agree. */
  lemma FinalStatesAgree(cfg: Config, events: seq<Event>, key: UserKey, ts: nat)
    requires ValidConfig(cfg) && IsRun(cfg, events) && cfg.base <= ts && Settled(After(cfg, events))
    ensures var s := After(cfg, events);
            Lookup(s.store, key, ts) == Find(SerialDb(cfg, s.clients, ts), key)
  {
    RunsKeepInvariant(cfg, events);
    SettledState(cfg, After(cfg, events), key, ts);
  }

  /** In every run the retained commits give the same verdict as the full history would. */
  lemma CleanupIsInvisible(cfg: Config, events: seq<Event>, id: ClientId)
    requires ValidConfig(cfg) && IsRun(cfg, events) && id in After(cfg, events).clients
    requires !After(cfg, events).clients[id].t.doneRead
    ensures var s := After(cfg, events);
            HasConflict(s.o.committedTxns, s.clients[id].t) <==> FullHistoryConflict(s, s.clients[id].t)
  {
    RunsKeepInvariant(cfg, events);
    VerdictUnaffectedByCleanup(cfg, After(cfg, events), id);
  }
}
