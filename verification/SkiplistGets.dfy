/** skl/skl.go: a search, and a Get, while Puts go on. Each pointer is loaded in a step of its own, and
    any number of steps of the Puts may come in between. */
module SkiplistGets {
  import opened Keys
  import opened Skiplist
  import opened SkiplistReads
  import opened SkiplistSafety

  datatype Query = Query(key: InternalKey, less: bool, allowEqual: bool)

  /** Where a reader stands: searching on a level, about to load what follows an equal node, or with
      its node found; `Returned` has the node's value as well. */
  datatype Reader = Idle | Descend(level: nat, x: Ref) | Beyond(n: Ref) | Found(n: Ref) | Returned(n: Ref, value: int) {
    predicate Searching() {
      Descend? || Beyond?
    }
  }

  datatype State = State(s: System, r: Reader)

  datatype Event = Write(e: Skiplist.Event) | Read

  // ---------- One step of a reader ----------

  ghost predicate CanRead(l: List, r: Reader) {
    match r
    case Idle => 1 <= l.height
    case Descend(level, x) => CanLook(l, level, x)
    case Beyond(n) => OnLevel(l, 0, n)
    case Found(n) => n == NIL || 0 <= n < |l.nodes|
    case Returned(_, _) => true
  }

  /** Nothing lies further right on this level before the key. */
  function Lower(q: Query, level: nat, x: Ref, next: Ref): Reader {
    if level > 0 then Descend(level - 1, x)
    else if !q.less then Found(next)
    else if x == HEAD then Found(NIL)
    else Found(x)
  }

  /** One pointer of findNear. */
  function LookNear(l: List, q: Query, level: nat, x: Ref): Reader
    requires OnLevel(l, level, x) && (Next(l, level, x) == NIL || 0 <= Next(l, level, x) < |l.nodes|)
  {
    var next := Next(l, level, x);
    if next == NIL then Lower(q, level, x, NIL)
    else if Before(l.nodes[next].key, q.key) then Descend(level, next)
    else if l.nodes[next].key == q.key then
      if q.allowEqual then Found(next)
      else if !q.less then Beyond(next)
      else Lower(q, level, x, next)
    else Lower(q, level, x, next)
  }

  function StepReader(l: List, q: Query, r: Reader): Reader
    requires CanRead(l, r)
  {
    match r
    case Idle => Descend(l.height - 1, HEAD)
    case Descend(level, x) => LookNear(l, q, level, x)
    case Beyond(n) => Found(Next(l, 0, n))
    case Found(n) => Returned(n, if n == NIL then 0 else l.nodes[n].value)
    case Returned(_, _) => r
  }

  ghost predicate Enabled(st: State, e: Event) {
    match e
    case Write(w) => Skiplist.Enabled(st.s, w)
    case Read => CanRead(st.s.list, st.r)
  }

  ghost function Step(q: Query, st: State, e: Event): State
    requires Enabled(st, e)
  {
    match e
    case Write(w) => st.(s := Skiplist.Step(st.s, w))
    case Read => st.(r := StepReader(st.s.list, q, st.r))
  }

  ghost predicate IsRun(puts: seq<Put>, q: Query, events: seq<Event>)
    decreases |events|, 0
  {
    events != [] ==>
      && IsRun(puts, q, events[..|events| - 1])
      && Enabled(After(puts, q, events[..|events| - 1]), events[|events| - 1])
  }

  ghost function After(puts: seq<Put>, q: Query, events: seq<Event>): State
    requires IsRun(puts, q, events)
    decreases |events|, 1
  {
    if events == [] then State(Initial(puts), Idle)
    else Step(q, After(puts, q, events[..|events| - 1]), events[|events| - 1])
  }

  lemma {:induction false} PrefixRuns(puts: seq<Put>, q: Query, events: seq<Event>, k: nat)
    requires IsRun(puts, q, events) && k <= |events|
    ensures IsRun(puts, q, events[..k])
    decreases |events|
  {
    if k == |events| {
      assert events[..k] == events;
    } else {
      PrefixRuns(puts, q, events[..|events| - 1], k);
      assert events[..|events| - 1][..k] == events[..k];
    }
  }

  // ---------- What a reader knows ----------

  ghost predicate ReaderOk(l: List, q: Query, r: Reader) {
    match r
    case Idle => true
    case Descend(level, x) => level < MAX_HEIGHT && OnLevel(l, level, x) && Below(l, x, q.key)
    case Beyond(n) => Entry(l, n) && l.nodes[n].key == q.key && !q.less && !q.allowEqual
    case Found(n) => n != NIL ==> Entry(l, n)
    case Returned(n, _) => n != NIL ==> Entry(l, n)
  }

  /** The Puts leave it intact. */
  lemma ReaderStays(l: List, m: List, x: Ref, q: Query, r: Reader)
    requires Grows(l, m, x) && ReaderOk(l, q, r)
    ensures ReaderOk(m, q, r)
  {
    LevelsGrow(l, m, x);
  }

  lemma EventGrows(puts: seq<Put>, s: System, e: Skiplist.Event) returns (x: Ref)
    requires SystemOk(puts, s) && Skiplist.Enabled(s, e)
    ensures Grows(s.list, Skiplist.Step(s, e).list, x)
  {
    hide ListOk, Contents, Replay, LogOk;
    var l, w := s.list, s.writers[e.id];
    assert WriterOk(l, w);
    StepKeeps(l, w, e.height);
    x := Private(w);
  }

  /** A step of the reader is safe, and when it has found its node, that is the nearest one now. */
  lemma ReadStep(l: List, q: Query, r: Reader)
    requires ListOk(l) && ReaderOk(l, q, r)
    ensures CanRead(l, r) && ReaderOk(l, q, StepReader(l, q, r))
    ensures r.Searching() && StepReader(l, q, r).Found? ==> Nearest(l, q.key, q.less, q.allowEqual, StepReader(l, q, r).n)
  {
    hide Nearest;
    match r
    case Idle =>
      assert OnLevel(l, l.height - 1, HEAD);
    case Descend(level, x) => DescendStep(l, q, level, x);
    case Beyond(n) => NearestAfter(l, n, q.key);
      assert PointsToSuccessor(l, 0, n);
    case _ =>
  }

  lemma DescendStep(l: List, q: Query, level: nat, x: Ref)
    requires ListOk(l) && ReaderOk(l, q, Descend(level, x))
    ensures CanRead(l, Descend(level, x)) && ReaderOk(l, q, LookNear(l, q, level, x))
    ensures LookNear(l, q, level, x).Found? ==> Nearest(l, q.key, q.less, q.allowEqual, LookNear(l, q, level, x).n)
  {
    assert PointsToSuccessor(l, level, x) && OnLevel(l, 0, x);
    var next := Next(l, level, x);
    if next != NIL {
      assert OnLevel(l, 0, next);
    }
    if level > 0 {
      assert OnLevel(l, level - 1, x);
    }
    if next != NIL && l.nodes[next].key == q.key && q.allowEqual {
      assert forall o | Entry(l, o) && l.nodes[o].key == q.key :: o == next;
      EqualIsNearest(l, q, next);
    } else if level == 0 && (next == NIL || !Before(l.nodes[next].key, q.key)) {
      NearestAround(l, x, next, q.key);
    }
  }

  lemma EqualIsNearest(l: List, q: Query, n: Ref)
    requires ListOk(l) && Entry(l, n) && l.nodes[n].key == q.key && q.allowEqual
    ensures Nearest(l, q.key, q.less, q.allowEqual, n)
  {
    assert forall o | Entry(l, o) && l.nodes[o].key == q.key :: o == n;
  }

  lemma {:induction false} RunKeeps(puts: seq<Put>, q: Query, events: seq<Event>)
    requires IsRun(puts, q, events)
    ensures var st := After(puts, q, events); SystemOk(puts, st.s) && ReaderOk(st.s.list, q, st.r)
    decreases |events|
  {
    hide SystemOk, ReaderOk, StepReader;
    if events == [] {
      InitialReader(puts, q);
    } else {
      var front, e := events[..|events| - 1], events[|events| - 1];
      RunKeeps(puts, q, front);
      StateKeeps(puts, q, After(puts, q, front), e);
    }
  }

  lemma InitialReader(puts: seq<Put>, q: Query)
    ensures SystemOk(puts, Initial(puts)) && ReaderOk(Initial(puts).list, q, Idle)
  {
    InitialOk(puts);
  }

  lemma StateKeeps(puts: seq<Put>, q: Query, st: State, e: Event)
    requires SystemOk(puts, st.s) && ReaderOk(st.s.list, q, st.r) && Enabled(st, e)
    ensures var next := Step(q, st, e); SystemOk(puts, next.s) && ReaderOk(next.s.list, q, next.r)
  {
    hide ReaderOk, Skiplist.Step, StepReader, WritersOk, LogOk, Contents, Replay;
    match e
    case Write(w) =>
      EventKeeps(puts, st.s, w);
      var x := EventGrows(puts, st.s, w);
      ReaderStays(st.s.list, Skiplist.Step(st.s, w).list, x, q, st.r);
    case Read => ReadStep(st.s.list, q, st.r);
  }

  /** A reader never gets stuck either. */
  lemma ReaderNeverStuck(puts: seq<Put>, q: Query, events: seq<Event>)
    requires IsRun(puts, q, events)
    ensures IsRun(puts, q, events + [Read])
  {
    RunKeeps(puts, q, events);
    ReadStep(After(puts, q, events).s.list, q, After(puts, q, events).r);
    assert (events + [Read])[..|events|] == events;
  }

  // ---------- At some moment of the search ----------

  /** After `k` events the reader was searching, and the node was the nearest one. */
  ghost predicate FoundAt(puts: seq<Put>, q: Query, events: seq<Event>, k: nat, n: Ref) {
    && k < |events| && IsRun(puts, q, events[..k])
    && var st := After(puts, q, events[..k]);
       st.r.Searching() && Nearest(st.s.list, q.key, q.less, q.allowEqual, n)
  }

  /** After `j` events the node was found, and this was its value. */
  ghost predicate LoadedAt(puts: seq<Put>, q: Query, events: seq<Event>, j: nat, n: Ref, value: int) {
    && j < |events| && IsRun(puts, q, events[..j])
    && var st := After(puts, q, events[..j]);
       st.r == Found(n) && (n != NIL ==> 0 <= n < |st.s.list.nodes| && st.s.list.nodes[n].value == value)
  }

  /** Only a read moves the reader, and one that has found its node keeps it. */
  lemma StepOfReader(q: Query, st: State, e: Event)
    requires Enabled(st, e)
    ensures Step(q, st, e).r == if e.Read? then StepReader(st.s.list, q, st.r) else st.r
    ensures st.r.Idle? ==> Step(q, st, e).r.Idle? || Step(q, st, e).r.Descend?
    ensures st.r.Searching() ==> Step(q, st, e).r.Searching() || Step(q, st, e).r.Found?
    ensures st.r.Found? || st.r.Returned? ==>
      && (Step(q, st, e).r.Found? || Step(q, st, e).r.Returned?)
      && Step(q, st, e).r.n == st.r.n
    ensures st.r.Returned? ==> Step(q, st, e).r == st.r
  {
  }

  lemma ListIsOk(puts: seq<Put>, s: System)
    requires SystemOk(puts, s)
    ensures ListOk(s.list) && (forall i | 0 <= i < |s.log| :: s.log[i] < |puts|) && Contents(s.list) == Replay(puts, s.log)
  {
  }

  /** However the Puts go on meanwhile, what findNear returns was the nearest node at some moment
      between its first and its last step. */
  lemma {:induction false} SearchLinearizes(puts: seq<Put>, q: Query, events: seq<Event>) returns (k: nat)
    requires IsRun(puts, q, events)
    requires After(puts, q, events).r.Found? || After(puts, q, events).r.Returned?
    ensures FoundAt(puts, q, events, k, After(puts, q, events).r.n)
    decreases |events|
  {
    hide Nearest, Skiplist.Step, LookNear, SystemOk;
    var front, e := events[..|events| - 1], events[|events| - 1];
    var st := After(puts, q, front);
    RunKeeps(puts, q, front);
    StepOfReader(q, st, e);
    if st.r.Searching() {
      ListIsOk(puts, st.s);
      ReadStep(st.s.list, q, st.r);
      k := |front|;
    } else {
      k := SearchLinearizes(puts, q, front);
      assert front[..k] == events[..k];
    }
  }

  lemma {:induction false} ValueLoaded(puts: seq<Put>, q: Query, events: seq<Event>, k: nat) returns (j: nat)
    requires IsRun(puts, q, events) && After(puts, q, events).r.Returned?
    requires k <= |events| && IsRun(puts, q, events[..k]) && After(puts, q, events[..k]).r.Searching()
    ensures var r := After(puts, q, events).r; k <= j && LoadedAt(puts, q, events, j, r.n, r.value)
    decreases |events|
  {
    hide Skiplist.Step, LookNear, SystemOk, Nearest;
    assert events[..|events|] == events;
    var front, e := events[..|events| - 1], events[|events| - 1];
    var st := After(puts, q, front);
    assert k < |events|;
    assert front[..k] == events[..k];
    RunKeeps(puts, q, front);
    StepOfReader(q, st, e);
    if st.r.Found? {
      j := |front|;
    } else {
      j := ValueLoaded(puts, q, front, k);
      assert front[..j] == events[..j];
    }
  }

  // ---------- Get ----------

  /** The version `ts` of `user` is the newest at or below `most`, or there is none. */
  ghost predicate NewestIn(c: map<InternalKey, int>, user: UserKey, most: nat, version: int) {
    if version < 0 then forall key | key in c && key.user == user :: most < key.ts
    else
      && version <= most && InternalKey(user, version) in c
      && forall key | key in c && key.user == user && key.ts <= most :: key.ts <= version
  }

  /** What Get makes of the node: the version, or -1 for nothing. */
  function VersionOf(l: List, n: Ref, user: UserKey): int
    requires n == NIL || 0 <= n < |l.nodes|
  {
    if n == NIL || l.nodes[n].key.user != user then -1 else l.nodes[n].key.ts
  }

  ghost function ContentsAt(puts: seq<Put>, q: Query, events: seq<Event>, k: nat): map<InternalKey, int>
    requires k <= |events| && IsRun(puts, q, events[..k]) && ListOk(After(puts, q, events[..k]).s.list)
  {
    Contents(After(puts, q, events[..k]).s.list)
  }

  lemma NearestIsNewest(l: List, user: UserKey, ts: nat, n: Ref)
    requires ListOk(l) && Nearest(l, InternalKey(user, ts), false, true, n)
    ensures n == NIL || 0 <= n < |l.nodes|
    ensures NewestIn(Contents(l), user, ts, VersionOf(l, n, user))
  {
    var key, c := InternalKey(user, ts), Contents(l);
    forall k | k in c && k.user == user && k.ts <= ts
      ensures n != NIL && l.nodes[n].key.user == user && k.ts <= l.nodes[n].key.ts
    {
      var o := ContentsKey(l, k);
      assert Entry(l, o) && Within(l, o, key, false, true);
    }
    if n != NIL {
      ContentsNode(l, n);
    }
  }

  /** Keys never change. */
  lemma {:induction false} SameKeyLater(puts: seq<Put>, q: Query, events: seq<Event>, k: nat, j: nat, n: Ref)
    requires IsRun(puts, q, events) && k <= j <= |events| && IsRun(puts, q, events[..k]) && IsRun(puts, q, events[..j])
    requires 0 <= n < |After(puts, q, events[..k]).s.list.nodes|
    ensures 0 <= n < |After(puts, q, events[..j]).s.list.nodes|
    ensures After(puts, q, events[..j]).s.list.nodes[n].key == After(puts, q, events[..k]).s.list.nodes[n].key
    decreases j
  {
    hide SystemOk, Skiplist.Step, StepReader;
    if k < j {
      PrefixRuns(puts, q, events, j - 1);
      SameKeyLater(puts, q, events, k, j - 1, n);
      var front, e := events[..j - 1], events[j - 1];
      assert events[..j][..j - 1] == front;
      RunKeeps(puts, q, front);
      if e.Write? {
        var x := EventGrows(puts, After(puts, q, front).s, e.e);
      }
    }
  }

  /** A Get while Puts go on: the version it returns was the newest at some moment `k` of the search,
      and its value is that of some moment `j` no earlier. */
  lemma GetLinearizes(puts: seq<Put>, user: UserKey, ts: nat, events: seq<Event>) returns (k: nat, j: nat)
    requires var q := Query(InternalKey(user, ts), false, true); IsRun(puts, q, events) && After(puts, q, events).r.Returned?
    ensures var q, r := Query(InternalKey(user, ts), false, true), After(puts, Query(InternalKey(user, ts), false, true), events).r;
            && FoundAt(puts, q, events, k, r.n) && k <= j && LoadedAt(puts, q, events, j, r.n, r.value)
            && ListOk(After(puts, q, events[..k]).s.list) && ListOk(After(puts, q, events[..j]).s.list)
            && (r.n == NIL || 0 <= r.n < |After(puts, q, events[..j]).s.list.nodes|)
            && var version := VersionOf(After(puts, q, events[..j]).s.list, r.n, user);
               && NewestIn(ContentsAt(puts, q, events, k), user, ts, version)
               && (version >= 0 ==>
                     && InternalKey(user, version) in ContentsAt(puts, q, events, j)
                     && ContentsAt(puts, q, events, j)[InternalKey(user, version)] == r.value)
  {
    hide Nearest, NewestIn, SystemOk, Contents;
    var q := Query(InternalKey(user, ts), false, true);
    k := SearchLinearizes(puts, q, events);
    j := ValueLoaded(puts, q, events, k);
    var n := After(puts, q, events).r.n;
    RunKeeps(puts, q, events[..k]);
    RunKeeps(puts, q, events[..j]);
    var before, later := After(puts, q, events[..k]), After(puts, q, events[..j]);
    ListIsOk(puts, before.s);
    ListIsOk(puts, later.s);
    NearestIsNewest(before.s.list, user, ts, n);
    if n != NIL {
      SameKeyLater(puts, q, events, k, j, n);
      ContentsNode(later.s.list, n);
    }
  }

  ghost predicate DistinctKeys(puts: seq<Put>) {
    forall i, j | 0 <= i < j < |puts| :: puts[i].key != puts[j].key
  }

  lemma {:induction false} ReplayValue(puts: seq<Put>, log: seq<WriterId>, key: InternalKey) returns (id: WriterId)
    requires (forall i | 0 <= i < |log| :: log[i] < |puts|) && key in Replay(puts, log)
    ensures id < |puts| && puts[id].key == key && Replay(puts, log)[key] == puts[id].value
  {
    var last := log[|log| - 1];
    if puts[last].key == key {
      id := last;
    } else {
      id := ReplayValue(puts, log[..|log| - 1], key);
    }
  }

  /** Where no key is put twice, as a version of a key is not, a Get answers as at one moment between
      its start and its end. */
  lemma GetIsAtomic(puts: seq<Put>, user: UserKey, ts: nat, events: seq<Event>) returns (k: nat)
    requires var q := Query(InternalKey(user, ts), false, true); IsRun(puts, q, events) && After(puts, q, events).r.Returned?
    requires DistinctKeys(puts)
    ensures var q, st := Query(InternalKey(user, ts), false, true), After(puts, Query(InternalKey(user, ts), false, true), events);
            && FoundAt(puts, q, events, k, st.r.n) && ListOk(After(puts, q, events[..k]).s.list)
            && (st.r.n == NIL || 0 <= st.r.n < |st.s.list.nodes|)
            && var version := VersionOf(st.s.list, st.r.n, user);
               && NewestIn(ContentsAt(puts, q, events, k), user, ts, version)
               && (version >= 0 ==>
                     && InternalKey(user, version) in ContentsAt(puts, q, events, k)
                     && ContentsAt(puts, q, events, k)[InternalKey(user, version)] == st.r.value)
  {
    hide Nearest, SystemOk, Contents;
    var q := Query(InternalKey(user, ts), false, true);
    var j;
    k, j := GetLinearizes(puts, user, ts, events);
    var n := After(puts, q, events).r.n;
    assert events[..|events|] == events;
    if n != NIL {
      SameKeyLater(puts, q, events, j, |events|, n);
    }
    var before, later := After(puts, q, events[..k]), After(puts, q, events[..j]);
    var version := VersionOf(later.s.list, n, user);
    if version >= 0 {
      var key := InternalKey(user, version);
      RunKeeps(puts, q, events[..k]);
      RunKeeps(puts, q, events[..j]);
      ListIsOk(puts, before.s);
      ListIsOk(puts, later.s);
      var a := ReplayValue(puts, before.s.log, key);
      var b := ReplayValue(puts, later.s.log, key);
      assert a == b;
    }
  }
}
