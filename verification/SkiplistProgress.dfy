/** What NeverStuck alone does not say: from any state, however the Puts and reads have interleaved,
    a Put or a read that goes on alone comes to its end. */
module SkiplistProgress {
  import opened Keys
  import opened Skiplist
  import opened SkiplistGets
  import opened SkiplistSafety

  // ---------- How far it is to the end ----------

  /** What lies on the level behind `before`. */
  ghost function Behind(l: List, i: nat, before: Ref): set<Ref> {
    if i < |l.linked| then
      set n | n in l.linked[i] && n != HEAD && 0 <= n < |l.nodes| && 0 <= before < |l.nodes| && Below(l, before, l.nodes[n].key)
    else {}
  }

  lemma RightIsNearer(l: List, i: nat, before: Ref, key: InternalKey)
    requires ListOk(l) && i < MAX_HEIGHT && OnLevel(l, i, before) && CanLook(l, i, before) && LookRight(l, i, before, key).Right?
    ensures Behind(l, i, LookRight(l, i, before, key).node) < Behind(l, i, before)
  {
    var n := Next(l, i, before);
    assert PointsToSuccessor(l, i, before);
    assert n in Behind(l, i, before) && n !in Behind(l, i, n);
  }

  /** The splice of level i is what the list says now. */
  ghost predicate Fresh(l: List, w: Writer, i: nat) {
    i < |w.prev| && i < |w.next| && w.prev[i].Some? && OnLevel(l, i, w.prev[i].value) && Next(l, i, w.prev[i].value) == w.next[i]
  }

  /** The part of Put that is being done; each is followed by lower ones only. */
  function Part(w: Writer): nat {
    match w.at
    case Start => 100
    case Search(i, _) => 60 + i
    case Allocate => 59
    case Measure => 58
    case Raise(_) => 58
    case Link(i) => if i <= MAX_HEIGHT then 2 + (MAX_HEIGHT - i) else 2
    case Find(i, _) => if i <= MAX_HEIGHT then 2 + (MAX_HEIGHT - i) else 2
    case Store(i) => if i <= MAX_HEIGHT then 2 + (MAX_HEIGHT - i) else 2
    case Swap(i) => if i <= MAX_HEIGHT then 2 + (MAX_HEIGHT - i) else 2
    case Retry(i, _) => if i <= MAX_HEIGHT then 2 + (MAX_HEIGHT - i) else 2
    case Overwrite(_) => 1
    case _ => 0
  }

  /** The steps within a part. */
  ghost function Stage(l: List, w: Writer): nat {
    match w.at
    case Measure => 1
    case Raise(seen) => if seen == l.height then 0 else 2
    case Link(_) => 7
    case Find(_, _) => 6
    case Store(i) => if Fresh(l, w, i) then 2 else 5
    case Swap(i) => if Fresh(l, w, i) then 1 else 4
    case Retry(_, _) => 3
    case _ => 0
  }

  ghost function Ahead(l: List, w: Writer): set<Ref> {
    match w.at
    case Search(i, b) => Behind(l, i, b)
    case Find(i, b) => Behind(l, i, b)
    case Retry(i, b) => Behind(l, i, b)
    case _ => {}
  }

  /** A lower part; or the same one at a lower stage; or both the same and nearer. */
  ghost predicate Nearer(l: List, w: Writer, m: List, v: Writer) {
    || Part(v) < Part(w)
    || (Part(v) == Part(w) && Stage(m, v) < Stage(l, w))
    || (Part(v) == Part(w) && Stage(m, v) == Stage(l, w) && Ahead(m, v) < Ahead(l, w))
  }

  lemma StepIsNearer(l: List, w: Writer, h: nat)
    requires ListOk(l) && WriterOk(l, w) && 1 <= h <= MAX_HEIGHT && !w.at.Done? && Safe(l, w)
    requires !StepWriter(l, w, h).1.at.Crash?
    ensures Nearer(l, w, StepWriter(l, w, h).0, StepWriter(l, w, h).1)
  {
    hide ListOk, Behind;
    match w.at
    case Search(i, b) => LookIsNearer(l, i, b, w.key);
    case Find(i, b) => LookIsNearer(l, i, b, w.key);
    case Retry(i, b) => LookIsNearer(l, i, b, w.key);
    case _ =>
  }

  lemma LookIsNearer(l: List, i: nat, b: Ref, key: InternalKey)
    requires ListOk(l) && i < MAX_HEIGHT && OnLevel(l, i, b) && Below(l, b, key)
    ensures CanLook(l, i, b)
    ensures match LookRight(l, i, b, key)
            case Right(n) => Behind(l, i, n) < Behind(l, i, b)
            case Splice(p, a) => p == b && a == Next(l, i, b)
            case Same(_) => true
  {
    LookOk(l, i, b, key);
    if LookRight(l, i, b, key).Right? {
      RightIsNearer(l, i, b, key);
    }
  }

  // ---------- A Put comes to its end ----------

  function WriterAt(s: System, id: WriterId): Writer {
    if id in s.writers then s.writers[id] else Begin(Put(InternalKey(0, 0), 0))
  }

  lemma WriterIsOk(puts: seq<Put>, s: System, id: WriterId)
    requires SystemOk(puts, s) && id < |puts|
    ensures id in s.writers && ListOk(s.list) && WriterOk(s.list, s.writers[id])
  {
  }

  /** From any state of any run a Put that goes on alone returns, whatever the height of its tower. */
  lemma {:induction false} FinishesAlone(puts: seq<Put>, events: seq<Skiplist.Event>, id: WriterId, height: nat)
    returns (more: seq<Skiplist.Event>)
    requires Skiplist.IsRun(puts, events) && id < |puts| && 1 <= height <= MAX_HEIGHT
    ensures Skiplist.IsRun(puts, events + more) && forall e | e in more :: e == Skiplist.Event(id, height)
    ensures WriterAt(Skiplist.After(puts, events + more), id).at.Done?
    decreases Part(WriterAt(Skiplist.After(puts, events), id)),
              Stage(Skiplist.After(puts, events).list, WriterAt(Skiplist.After(puts, events), id)),
              Ahead(Skiplist.After(puts, events).list, WriterAt(Skiplist.After(puts, events), id))
  {
    hide SystemOk, ListOk, WriterOk, Part, Stage, Ahead, StepWriter, TakesEffect;
    SkiplistSafety.RunKeeps(puts, events);
    var s := Skiplist.After(puts, events);
    WriterIsOk(puts, s, id);
    if s.writers[id].at.Done? {
      more := [];
      assert events + [] == events;
    } else {
      var e := Skiplist.Event(id, height);
      NeverStuck(puts, events, id, height);
      NeverStuck(puts, events + [e], id, height);
      assert (events + [e])[..|events|] == events;
      StepIsNearer(s.list, s.writers[id], height);
      var rest := FinishesAlone(puts, events + [e], id, height);
      more := [e] + rest;
      assert events + [e] + rest == events + more;
    }
  }

  // ---------- So does a read ----------

  function ReaderPart(r: Reader): nat {
    match r
    case Idle => 50
    case Descend(level, _) => 10 + level
    case Beyond(_) => 5
    case Found(_) => 4
    case Returned(_, _) => 0
  }

  ghost function ReaderAhead(l: List, r: Reader): set<Ref> {
    if r.Descend? then Behind(l, r.level, r.x) else {}
  }

  lemma ReadIsNearer(l: List, q: Query, r: Reader)
    requires ListOk(l) && ReaderOk(l, q, r) && CanRead(l, r) && !r.Returned?
    ensures var next := StepReader(l, q, r);
            ReaderPart(next) < ReaderPart(r) || (ReaderPart(next) == ReaderPart(r) && ReaderAhead(l, next) < ReaderAhead(l, r))
  {
    hide ListOk, Behind;
    match r
    case Descend(level, x) => LookIsNearer(l, level, x, q.key);
    case Idle => HeightBounded(l);
    case _ =>
  }

  lemma HeightBounded(l: List)
    requires ListOk(l)
    ensures 1 <= l.height <= MAX_HEIGHT
  {
  }

  /** From any state of any run a search that goes on alone ends with its node and value. */
  lemma {:induction false} ReturnsAlone(puts: seq<Put>, q: Query, events: seq<SkiplistGets.Event>)
    returns (more: seq<SkiplistGets.Event>)
    requires SkiplistGets.IsRun(puts, q, events)
    ensures SkiplistGets.IsRun(puts, q, events + more) && forall e | e in more :: e.Read?
    ensures SkiplistGets.After(puts, q, events + more).r.Returned?
    decreases ReaderPart(SkiplistGets.After(puts, q, events).r),
              ReaderAhead(SkiplistGets.After(puts, q, events).s.list, SkiplistGets.After(puts, q, events).r)
  {
    hide SystemOk, ListOk, ReaderOk, CanRead, ReaderPart, ReaderAhead, StepReader;
    SkiplistGets.RunKeeps(puts, q, events);
    var st := SkiplistGets.After(puts, q, events);
    if st.r.Returned? {
      more := [];
      assert events + [] == events;
    } else {
      ListIsOk(puts, st.s);
      ReadStep(st.s.list, q, st.r);
      ReaderNeverStuck(puts, q, events);
      assert (events + [Read])[..|events|] == events;
      ReadIsNearer(st.s.list, q, st.r);
      var rest := ReturnsAlone(puts, q, events + [Read]);
      more := [Read] + rest;
      assert events + [Read] + rest == events + more;
    }
  }
}
