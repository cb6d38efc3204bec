/** Concurrent transactions as a state machine. Every step applies the functions that the
    methods of `Oracle` are proved against; the two watermarks run behind their channels. */
module Transactions {
  import opened Keys
  import opened WatermarkRuns
  import opened Oracle
  import opened Wrappers

  type ClientId = nat
  type Store = map<InternalKey, Option<Value>>

  datatype Config = Config(base: nat, initial: Store, fingerprint: UserKey -> Fingerprint)

  datatype Op = Read(key: UserKey, result: Option<Value>) | Write(key: UserKey, value: Option<Value>)

  datatype Phase =
    | Waiting  // for txnMark to reach the read timestamp
    | Active
    | Refused  // the commit met a conflict
    | Committing(ts: nat, applied: set<UserKey>)
    | Committed(ts: nat)
    | Failed(ts: nat)  // the write request failed before anything was applied

  datatype Client = Client(t: TxnState, phase: Phase, ops: seq<Op>)

  /** `readAt` and `txnAt` count the marks each watermark has processed. */
  datatype System = System(
    o: OracleState, readAt: nat, txnAt: nat, clients: map<ClientId, Client>, store: Store)

  datatype Event =
    | BeginTxn(id: ClientId, update: bool)
    | Ready(id: ClientId)
    | Get(id: ClientId, key: UserKey)
    | Set(id: ClientId, key: UserKey, value: Option<Value>)
    | Commit(id: ClientId, readSteps: nat)
    | Apply(id: ClientId, key: UserKey)
    | FinishCommit(id: ClientId)
    | FailCommit(id: ClientId)
    | Discard(id: ClientId)
    | ReadMarkStep
    | TxnMarkStep

  /** The newest version of `key` at or below `ts`. */
  function Lookup(store: Store, key: UserKey, ts: nat): Option<Value> {
    if InternalKey(key, ts) in store then store[InternalKey(key, ts)]
    else if ts == 0 then None else Lookup(store, key, ts - 1)
  }

  function Start(cfg: Config): System {
    System(OracleState(true, cfg.base + 1, 0, [], [], []), 0, 0, map[], cfg.initial)
  }

  ghost function ReadDoneUntil(cfg: Config, o: OracleState, at: nat): nat
    requires at <= |o.readSent|
  {
    Run(cfg.base, o.readSent[..at]).doneUntil
  }

  ghost function TxnDoneUntil(cfg: Config, s: System): nat
    requires s.txnAt <= |s.o.txnSent|
  {
    Run(cfg.base, s.o.txnSent[..s.txnAt]).doneUntil
  }

  ghost predicate Is(s: System, id: ClientId, phase: Phase) {
    id in s.clients && s.clients[id].phase == phase
  }

  ghost predicate Enabled(cfg: Config, s: System, e: Event) {
    && s.readAt <= |s.o.readSent| && s.txnAt <= |s.o.txnSent| && s.o.nextTxnTs > 0
    && match e
       case BeginTxn(id, _) => id !in s.clients
       case Ready(id) => Is(s, id, Waiting) && s.clients[id].t.readTs <= TxnDoneUntil(cfg, s)
       case Get(id, _) => Is(s, id, Active) && !s.clients[id].t.discarded
       case Set(id, _, _) => Is(s, id, Active) && !s.clients[id].t.discarded && s.clients[id].t.update
       case Commit(id, n) =>
         && Is(s, id, Active) && !s.clients[id].t.discarded && s.clients[id].t.pendingWrites != map[]
         && s.readAt + n <= |DoneRead(s.o, s.clients[id].t).readSent|
       case Apply(id, key) =>
         && id in s.clients && s.clients[id].phase.Committing?
         && key in s.clients[id].t.pendingWrites && key !in s.clients[id].phase.applied
       case FinishCommit(id) =>
         && id in s.clients && s.clients[id].phase.Committing?
         && s.clients[id].phase.applied == s.clients[id].t.pendingWrites.Keys
       case FailCommit(id) =>
         id in s.clients && s.clients[id].phase.Committing? && s.clients[id].phase.applied == {}
       case Discard(id) =>
         id in s.clients && !s.clients[id].t.discarded && !s.clients[id].phase.Waiting?
       case ReadMarkStep => s.readAt < |s.o.readSent|
       case TxnMarkStep => s.txnAt < |s.o.txnSent|
  }

  ghost function With(s: System, id: ClientId, c: Client): System {
    s.(clients := s.clients[id := c])
  }

  ghost function Step(cfg: Config, s: System, e: Event): System
    requires Enabled(cfg, s, e)
  {
    match e
    case BeginTxn(id, update) =>
      With(s, id, Client(Fresh(s.o.nextTxnTs - 1, update), Waiting, [])).(o := Begun(s.o))
    case Ready(id) =>
      With(s, id, s.clients[id].(phase := Active))
    case Get(id, key) =>
      var c := s.clients[id];
      var result := ReadResult(c.t, Lookup(s.store, key, c.t.readTs), key);
      With(s, id, c.(t := Looked(c.t, cfg.fingerprint, key), ops := c.ops + [Read(key, result)]))
    case Set(id, key, value) =>
      var c := s.clients[id];
      With(s, id, c.(t := Written(c.t, true, cfg.fingerprint, key, value), ops := c.ops + [Write(key, value)]))
    case Commit(id, n) =>
      var c := s.clients[id];
      if HasConflict(s.o.committedTxns, c.t) then With(s, id, c.(phase := Refused))
      else
        var maxReadTs := ReadDoneUntil(cfg, DoneRead(s.o, c.t), s.readAt + n);
        With(s, id, c.(t := c.t.(doneRead := true), phase := Committing(s.o.nextTxnTs, {})))
          .(o := Granted(s.o, c.t, maxReadTs), readAt := s.readAt + n)
    case Apply(id, key) =>
      var c := s.clients[id];
      With(s, id, c.(phase := c.phase.(applied := c.phase.applied + {key})))
        .(store := s.store[InternalKey(key, c.phase.ts) := c.t.pendingWrites[key]])
    case FinishCommit(id) =>
      var c := s.clients[id];
      With(s, id, c.(phase := Committed(c.phase.ts))).(o := CommitDone(s.o, c.phase.ts))
    case FailCommit(id) =>
      var c := s.clients[id];
      With(s, id, c.(phase := Failed(c.phase.ts))).(o := CommitDone(s.o, c.phase.ts))
    case Discard(id) =>
      var c := s.clients[id];
      With(s, id, c.(t := c.t.(doneRead := true, discarded := true))).(o := DoneRead(s.o, c.t))
    case ReadMarkStep => s.(readAt := s.readAt + 1)
    case TxnMarkStep => s.(txnAt := s.txnAt + 1)
  }

  ghost predicate IsRun(cfg: Config, events: seq<Event>)
    decreases |events|, 0
  {
    events != [] ==>
      && IsRun(cfg, events[..|events| - 1])
      && Enabled(cfg, After(cfg, events[..|events| - 1]), events[|events| - 1])
  }

  ghost function After(cfg: Config, events: seq<Event>): System
    requires IsRun(cfg, events)
    decreases |events|, 1
  {
    if events == [] then Start(cfg)
    else Step(cfg, After(cfg, events[..|events| - 1]), events[|events| - 1])
  }

  // ---------- Serial execution ----------

  type Db = map<UserKey, Option<Value>>

  function Find(db: Db, key: UserKey): Option<Value> {
    if key in db then db[key] else None
  }

  /** Running a transaction's operations alone, one after the other. */
  function Execute(ops: seq<Op>, db: Db): Db {
    if ops == [] then db else
      var before := Execute(ops[..|ops| - 1], db);
      var op := ops[|ops| - 1];
      if op.Write? then before[op.key := op.value] else before
  }

  /** Run alone on `db`, every read returns what it returned in the concurrent run. */
  ghost predicate Replays(ops: seq<Op>, db: Db) {
    ops != [] ==>
      var before, op := ops[..|ops| - 1], ops[|ops| - 1];
      Replays(before, db) && (op.Read? ==> op.result == Find(Execute(before, db), op.key))
  }

  predicate Succeeded(c: Client) {
    c.phase.Committing? || c.phase.Committed?
  }

  predicate Stamped(c: Client) {
    c.phase.Committing? || c.phase.Committed? || c.phase.Failed?
  }

  ghost predicate SucceededAt(clients: map<ClientId, Client>, id: ClientId, ts: nat) {
    id in clients && Succeeded(clients[id]) && clients[id].phase.ts == ts
  }

  ghost function InitialDb(cfg: Config): Db {
    map ik | ik in cfg.initial :: ik.user := Lookup(cfg.initial, ik.user, cfg.base)
  }

  /** The database after running, in timestamp order and one at a time, every transaction that
      was given a commit timestamp up to `ts` and did not fail. */
  ghost function SerialDb(cfg: Config, clients: map<ClientId, Client>, ts: nat): Db {
    if ts <= cfg.base then InitialDb(cfg)
    else if exists id :: SucceededAt(clients, id, ts) then
      var id :| SucceededAt(clients, id, ts);
      Execute(clients[id].ops, SerialDb(cfg, clients, ts - 1))
    else SerialDb(cfg, clients, ts - 1)
  }
}
