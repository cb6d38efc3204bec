/** txn.go in normal (non-managed) mode: timestamps, conflict detection and clean-up.
    The classes are the oracle and a transaction; the functions are what their methods are
    proved against, and what the runs in `Serializability` are made of. */
module Oracle {
  import opened Keys
  import opened Watermark
  import opened Wrappers

  type Value = int
  type Fingerprint = int

  datatype CommittedTxn = CommittedTxn(ts: nat, conflictKeys: set<Fingerprint>)

  datatype OracleState = OracleState(
    detectConflicts: bool,
    nextTxnTs: nat,
    lastCleanupTs: nat,
    committedTxns: seq<CommittedTxn>,
    readSent: seq<Mark>,  // everything sent to readMark's channel
    txnSent: seq<Mark>)   // everything sent to txnMark's channel

  /** A pending write of None is a delete marker. */
  datatype TxnState = TxnState(
    readTs: nat,
    update: bool,
    readKeys: seq<Fingerprint>,
    conflictKeys: set<Fingerprint>,
    pendingWrites: map<UserKey, Option<Value>>,
    doneRead: bool,
    discarded: bool)

  datatype CommitResult = Conflict | CommitAt(ts: nat)
  datatype TxnError = ReadOnlyTxn | DiscardedTxn | EmptyKey | InvalidKey | KeyTooLong | ValueTooLong | BannedKey | TxnTooBig
  datatype Outcome<T> = Ok(result: T) | Error(error: TxnError)

  // ---------- Specification ----------

  /** Some transaction that committed after `t` began wrote a key that `t` read. */
  ghost predicate HasConflict(committed: seq<CommittedTxn>, t: TxnState) {
    exists c, r :: c in committed && r in t.readKeys && t.readTs < c.ts && r in c.conflictKeys
  }

  function Retain(committed: seq<CommittedTxn>, above: nat): (kept: seq<CommittedTxn>)
    ensures forall c :: c in kept <==> c in committed && c.ts > above
  {
    if committed == [] then [] else
      var last := committed[|committed| - 1];
      var rest := Retain(committed[..|committed| - 1], above);
      assert committed == committed[..|committed| - 1] + [last];
      if last.ts <= above then rest else rest + [last]
  }

  function Above(ts: nat): CommittedTxn -> bool {
    (c: CommittedTxn) => c.ts > ts
  }

  lemma {:induction false} RetainSifts(committed: seq<CommittedTxn>, above: nat)
    ensures Sifted(committed, Above(above), Retain(committed, above))
  {
    hide Sifted;
    if committed == [] {
      SiftNothing(Above(above));
    } else {
      var front, last := committed[..|committed| - 1], committed[|committed| - 1];
      RetainSifts(front, above);
      SiftMore(front, Above(above), Retain(front, above), last);
      assert committed == front + [last];
    }
  }

  function DoneRead(o: OracleState, t: TxnState): OracleState {
    if t.doneRead then o else o.(readSent := o.readSent + [Done(t.readTs)])
  }

  function Cleanup(o: OracleState, maxReadTs: nat): OracleState {
    if !o.detectConflicts || maxReadTs == o.lastCleanupTs then o
    else o.(lastCleanupTs := maxReadTs, committedTxns := Retain(o.committedTxns, maxReadTs))
  }

  function Begun(o: OracleState): OracleState
    requires o.nextTxnTs > 0
  {
    o.(readSent := o.readSent + [Begin(o.nextTxnTs - 1)])
  }

  function Fresh(readTs: nat, update: bool): TxnState {
    TxnState(readTs, update, [], {}, map[], false, false)
  }

  /** The oracle after granting a commit timestamp; `maxReadTs` is what the load of
      readMark.DoneUntil during clean-up returned. */
  function Granted(o: OracleState, t: TxnState, maxReadTs: nat): OracleState {
    var c := Cleanup(DoneRead(o, t), maxReadTs);
    c.(nextTxnTs := c.nextTxnTs + 1,
       txnSent := c.txnSent + [Begin(c.nextTxnTs)],
       committedTxns := if c.detectConflicts then c.committedTxns + [CommittedTxn(c.nextTxnTs, t.conflictKeys)]
                        else c.committedTxns)
  }

  function CommitDone(o: OracleState, ts: nat): OracleState {
    o.(txnSent := o.txnSent + [Done(ts)])
  }

  function Written(t: TxnState, detectConflicts: bool, fingerprint: UserKey -> Fingerprint,
                   key: UserKey, value: Option<Value>): TxnState
  {
    t.(conflictKeys := if detectConflicts then t.conflictKeys + {fingerprint(key)} else t.conflictKeys,
       pendingWrites := t.pendingWrites[key := value])
  }

  /** Update transactions record the fingerprint of every key they read from the store. */
  function Looked(t: TxnState, fingerprint: UserKey -> Fingerprint, key: UserKey): TxnState {
    if t.update && key !in t.pendingWrites then t.(readKeys := t.readKeys + [fingerprint(key)]) else t
  }

  function ReadResult(t: TxnState, stored: Option<Value>, key: UserKey): Option<Value> {
    if t.update && key in t.pendingWrites then t.pendingWrites[key] else stored
  }

  // ---------- The transaction ----------

  const MAX_KEY_SIZE: nat := 65000

  /** What the checks look at in a key and a value: their lengths, whether the key begins with
      badger's own prefix or lies in a banned namespace, and the estimate of checkSize. */
  datatype Shape = Shape(keySize: nat, valueSize: nat, reserved: bool, banned: bool, estimate: nat)

  datatype Limits = Limits(fileSize: nat, inMemory: bool, threshold: nat, maxBatchCount: nat, maxBatchSize: nat)

  /** A write that any transaction may take. */
  predicate Allowed(w: Shape, limits: Limits) {
    && 0 < w.keySize <= MAX_KEY_SIZE && !w.reserved && !w.banned
    && w.valueSize <= limits.fileSize && (limits.inMemory ==> w.valueSize <= limits.threshold)
  }

  /** What is wrong with one that it may not. */
  function Reason(w: Shape, limits: Limits): TxnError
    requires !Allowed(w, limits)
  {
    if w.keySize == 0 then EmptyKey
    else if w.reserved then InvalidKey
    else if w.keySize > MAX_KEY_SIZE then KeyTooLong
    else if w.valueSize > limits.fileSize || (limits.inMemory && w.valueSize > limits.threshold) then ValueTooLong
    else BannedKey
  }

  /** There is room for it in a transaction of this size. */
  predicate HasRoom(w: Shape, limits: Limits, count: nat, size: nat) {
    count + 1 < limits.maxBatchCount && size + w.estimate + 10 < limits.maxBatchSize
  }

  class Txn {
    var readTs: nat
    var update: bool
    var readKeys: seq<Fingerprint>
    var conflictKeys: set<Fingerprint>
    var pendingWrites: map<UserKey, Option<Value>>
    var doneRead: bool
    var discarded: bool
    var count: nat
    var size: nat

    ghost function State(): TxnState
      reads this
    {
      TxnState(readTs, update, readKeys, conflictKeys, pendingWrites, doneRead, discarded)
    }

    constructor (readTs: nat, update: bool)
      ensures State() == Fresh(readTs, update)
    {
      this.readTs, this.update := readTs, update;
      readKeys, conflictKeys, pendingWrites := [], {}, map[];
      doneRead, discarded, count, size := false, false, 0, 0;
    }

    /** The first of the checks that fails, up to that of the namespace. */
    method CheckShape(w: Shape, limits: Limits) returns (r: Outcome<()>)
      ensures r.Ok? <==> update && !discarded && Allowed(w, limits)
      ensures r.Error? ==> r.error == if !update then ReadOnlyTxn else if discarded then DiscardedTxn else Reason(w, limits)
    {
      if !update {
        return Error(ReadOnlyTxn);
      } else if discarded {
        return Error(DiscardedTxn);
      } else if w.keySize == 0 {
        return Error(EmptyKey);
      } else if w.reserved {
        return Error(InvalidKey);
      } else if w.keySize > MAX_KEY_SIZE {
        return Error(KeyTooLong);
      } else if w.valueSize > limits.fileSize {
        return Error(ValueTooLong);
      } else if limits.inMemory && w.valueSize > limits.threshold {
        return Error(ValueTooLong);
      } else if w.banned {
        return Error(BannedKey);
      }
      return Ok(());
    }

    /** Refuses what it may not take, and otherwise adds the write. */
    method Modify(key: UserKey, value: Option<Value>, w: Shape, limits: Limits, detectConflicts: bool,
                  fingerprint: UserKey -> Fingerprint)
      returns (r: Outcome<()>)
      modifies this`conflictKeys, this`pendingWrites, this`count, this`size
      ensures r.Ok? <==> update && !discarded && Allowed(w, limits) && HasRoom(w, limits, old(count), old(size))
      ensures r.Error? ==> r.error == (if !update then ReadOnlyTxn else if discarded then DiscardedTxn
                                       else if Allowed(w, limits) then TxnTooBig else Reason(w, limits))
      ensures State() == if r.Ok? then Written(old(State()), detectConflicts, fingerprint, key, value)
                         else old(State())
      ensures (count, size) == if r.Ok? then (old(count) + 1, old(size) + w.estimate + 10) else (old(count), old(size))
    {
      r := CheckShape(w, limits);
      if r.Error? {
        return;
      }
      if count + 1 >= limits.maxBatchCount || size + w.estimate + 10 >= limits.maxBatchSize {
        return Error(TxnTooBig);
      }
      count, size := count + 1, size + w.estimate + 10;
      if detectConflicts {
        conflictKeys := conflictKeys + {fingerprint(key)};
      }
      pendingWrites := pendingWrites[key := value];
      return Ok(());
    }

    /** `stored` is DB.get at the read timestamp, with delete markers already read as None. */
    method Get(key: UserKey, w: Shape, stored: (UserKey, nat) -> Option<Value>, fingerprint: UserKey -> Fingerprint)
      returns (r: Outcome<Option<Value>>)
      modifies this`readKeys
      ensures r.Error? <==> w.keySize == 0 || discarded || w.banned
      ensures r.Error? ==> State() == old(State())
      ensures r.Error? ==> r.error == if w.keySize == 0 then EmptyKey else if discarded then DiscardedTxn else BannedKey
      ensures r.Ok? ==> r.result == ReadResult(old(State()), stored(key, readTs), key)
      ensures r.Ok? ==> State() == Looked(old(State()), fingerprint, key)
    {
      if w.keySize == 0 {
        return Error(EmptyKey);
      } else if discarded {
        return Error(DiscardedTxn);
      }
      if w.banned {
        return Error(BannedKey);
      }
      if update {
        if key in pendingWrites {
          return Ok(pendingWrites[key]);
        }
        readKeys := readKeys + [fingerprint(key)];
      }
      return Ok(stored(key, readTs));
    }
  }

  // ---------- The oracle ----------

  class Orc {
    const detectConflicts: bool
    var nextTxnTs: nat
    var lastCleanupTs: nat
    var committedTxns: seq<CommittedTxn>
    var readSent: seq<Mark>
    var txnSent: seq<Mark>

    ghost function State(): OracleState
      reads this
    {
      OracleState(detectConflicts, nextTxnTs, lastCleanupTs, committedTxns, readSent, txnSent)
    }

    /** Open starts one above the largest version on disk. */
    constructor (detectConflicts: bool, maxVersion: nat)
      ensures State() == OracleState(detectConflicts, maxVersion + 1, 0, [], [], [])
    {
      this.detectConflicts := detectConflicts;
      nextTxnTs, lastCleanupTs, committedTxns, readSent, txnSent := maxVersion + 1, 0, [], [], [];
    }

    /** The locked part of readTs; the caller then waits for txnMark to reach the result. */
    method ReadTs() returns (ts: nat)
      requires nextTxnTs > 0
      modifies this`readSent
      ensures ts == nextTxnTs - 1 && State() == Begun(old(State()))
    {
      ts := nextTxnTs - 1;
      readSent := readSent + [Begin(ts)];
    }

    method FindConflict(txn: Txn) returns (conflict: bool)
      ensures conflict <==> HasConflict(committedTxns, txn.State())
    {
      if |txn.readKeys| == 0 {
        return false;
      }
      for i := 0 to |committedTxns|
        invariant forall j, r | 0 <= j < i && r in txn.readKeys && txn.readTs < committedTxns[j].ts ::
            r !in committedTxns[j].conflictKeys
      {
        if committedTxns[i].ts <= txn.readTs {
          continue;
        }
        for k := 0 to |txn.readKeys|
          invariant forall m | 0 <= m < k :: txn.readKeys[m] !in committedTxns[i].conflictKeys
        {
          if txn.readKeys[k] in committedTxns[i].conflictKeys {
            ghost var t := txn.State();
            ghost var c, r := committedTxns[i], t.readKeys[k];
            assert c in committedTxns && r in t.readKeys && t.readTs < c.ts && r in c.conflictKeys;
            assert HasConflict(committedTxns, t);
            return true;
          }
        }
      }
      return false;
    }

    method FinishRead(txn: Txn)
      modifies this`readSent, txn`doneRead
      ensures State() == DoneRead(old(State()), old(txn.State()))
      ensures txn.State() == old(txn.State()).(doneRead := true)
    {
      if !txn.doneRead {
        txn.doneRead := true;
        readSent := readSent + [Done(txn.readTs)];
      }
    }

    method CleanupCommitted(maxReadTs: nat)
      requires detectConflicts ==> maxReadTs >= lastCleanupTs
      modifies this`lastCleanupTs, this`committedTxns
      ensures State() == Cleanup(old(State()), maxReadTs)
      ensures detectConflicts && maxReadTs != old(lastCleanupTs) ==>
          lastCleanupTs == maxReadTs && Sifted(old(committedTxns), Above(maxReadTs), committedTxns)
    {
      hide Sifted;
      if !detectConflicts || maxReadTs == lastCleanupTs {
        return;
      }
      lastCleanupTs := maxReadTs;
      var tmp: seq<CommittedTxn> := [];
      for i := 0 to |committedTxns|
        invariant tmp == Retain(committedTxns[..i], maxReadTs)
      {
        assert committedTxns[..i + 1][..i] == committedTxns[..i];
        if committedTxns[i].ts > maxReadTs {
          tmp := tmp + [committedTxns[i]];
        }
      }
      assert committedTxns[..|committedTxns|] == committedTxns;
      RetainSifts(committedTxns, maxReadTs);
      committedTxns := tmp;
    }

    /** The two assertions of newCommitTs are the first two preconditions; `Serializability`
        proves that they hold in every run. */
    method NewCommitTs(txn: Txn, maxReadTs: nat) returns (r: CommitResult)
      requires detectConflicts ==> maxReadTs >= lastCleanupTs
      requires nextTxnTs >= (if detectConflicts then maxReadTs else lastCleanupTs)
      modifies this, txn`doneRead
      ensures r.Conflict? <==> HasConflict(old(committedTxns), old(txn.State()))
      ensures r.Conflict? ==> State() == old(State()) && txn.State() == old(txn.State())
      ensures r.CommitAt? ==> r.ts == old(nextTxnTs)
      ensures r.CommitAt? ==> State() == Granted(old(State()), old(txn.State()), maxReadTs)
      ensures r.CommitAt? ==> txn.State() == old(txn.State()).(doneRead := true)
    {
      var conflict := FindConflict(txn);
      if conflict {
        return Conflict;
      }
      FinishRead(txn);
      CleanupCommitted(maxReadTs);
      var ts := nextTxnTs;
      nextTxnTs := nextTxnTs + 1;
      txnSent := txnSent + [Begin(ts)];
      assert ts >= lastCleanupTs;
      if detectConflicts {
        committedTxns := committedTxns + [CommittedTxn(ts, txn.conflictKeys)];
      }
      return CommitAt(ts);
    }

    method FinishCommit(ts: nat)
      modifies this`txnSent
      ensures State() == CommitDone(old(State()), ts)
    {
      txnSent := txnSent + [Done(ts)];
    }

    method Discard(txn: Txn)
      modifies this`readSent, txn`doneRead, txn`discarded
      ensures old(txn.discarded) ==> State() == old(State()) && txn.State() == old(txn.State())
      ensures !old(txn.discarded) ==> State() == DoneRead(old(State()), old(txn.State()))
      ensures !old(txn.discarded) ==> txn.State() == old(txn.State()).(doneRead := true, discarded := true)
    {
      if txn.discarded {
        return;
      }
      txn.discarded := true;
      FinishRead(txn);
    }
  }
}
