/** What a watermark guarantees over every sequence of marks in which Begins do not go back and
    each Done follows a Begin of its index. Marks still queued in the channel are the ones after
    the processed prefix. */
module WatermarkRuns {
  import opened Watermark

  function Delta(m: Mark, i: nat): int {
    match m
    case Begin(j) => if i == j then 1 else 0
    case Done(j) => if i == j then -1 else 0
    case Wait(_, _) => 0
  }

  /** Begins minus Dones sent for index i. */
  function Balance(log: seq<Mark>, i: nat): int {
    if log == [] then 0 else Balance(log[..|log| - 1], i) + Delta(log[|log| - 1], i)
  }

  /** `strict` when no index is begun twice, as for commit timestamps. */
  ghost predicate MayFollow(base: nat, strict: bool, log: seq<Mark>, m: Mark) {
    match m
    case Begin(i) =>
      && base <= i && (strict ==> base < i)
      && forall j: nat | Begin(j) in log :: j <= i && (strict ==> j < i)
    case Done(i) => Balance(log, i) > 0
    case Wait(_, w) => forall j: nat :: Wait(j, w) !in log
  }

  ghost predicate Legal(base: nat, strict: bool, log: seq<Mark>) {
    log != [] ==>
      && Legal(base, strict, log[..|log| - 1])
      && MayFollow(base, strict, log[..|log| - 1], log[|log| - 1])
  }

  /** A freshly opened mark: Open sends one Done for the largest version found on disk. */
  function Opened(base: nat): State {
    State(base, map[], map[], {})
  }

  lemma OpenedByDone(base: nat)
    ensures Process(State(0, map[], map[], {}), Done(base)) == Opened(base)
  {
    var pending: map<nat, int> := map[base := -1];
    assert Settled(pending, base);
    assert SettledSet(pending) == {base};
    assert IsMax({base}, base);
    assert Bump(map[], base, -1) == pending;
  }

  ghost function Run(base: nat, log: seq<Mark>): State {
    if log == [] then Opened(base) else
      var s := Run(base, log[..|log| - 1]);
      var m := log[|log| - 1];
      if Panics(s, m) then s else Process(s, m)
  }

  ghost predicate MarkInvariant(base: nat, strict: bool, log: seq<Mark>, s: State) {
    && base <= s.doneUntil
    && (s.doneUntil == base || Begin(s.doneUntil) in log)
    && (forall i: nat :: Count(s.pending, i) == Balance(log, i) >= 0)
    && (forall i | i in s.pending :: s.doneUntil <= i && (strict ==> s.doneUntil < i))
    && (forall i | i in s.pending :: Begin(i) in log && !Settled(s.pending, i))
    && (forall i: nat | Begin(i) in log :: i in s.pending || i <= s.doneUntil)
  }

  ghost predicate WaiterInvariant(log: seq<Mark>, s: State) {
    && (forall k | k in s.waiters :: s.doneUntil < k)
    && (forall k, w | k in s.waiters && w in s.waiters[k] :: Wait(k, w) in log)
    && (forall k: nat, w | Wait(k, w) in log ::
        if k <= s.doneUntil then w in s.closed else k in s.waiters && w in s.waiters[k])
    && (forall w | w in s.closed :: exists k: nat :: k <= s.doneUntil && Wait(k, w) in log)
  }

  ghost predicate Invariant(base: nat, strict: bool, log: seq<Mark>, s: State) {
    MarkInvariant(base, strict, log, s) && WaiterInvariant(log, s)
  }

  lemma InLog(log: seq<Mark>, m: Mark, x: Mark)
    ensures (log + [m])[..|log|] == log
    ensures x in log + [m] <==> x in log || x == m
  {
  }

  function Bumped(s: State, m: Mark): map<nat, int>
    requires !m.Wait?
  {
    Bump(s.pending, m.index, if m.Begin? then 1 else -1)
  }

  lemma BumpCounts(base: nat, strict: bool, log: seq<Mark>, s: State, m: Mark)
    requires MarkInvariant(base, strict, log, s) && MayFollow(base, strict, log, m) && !m.Wait?
    ensures s.doneUntil <= m.index
    ensures m.Begin? && strict ==> s.doneUntil < m.index
    ensures forall i: nat :: Count(Bumped(s, m), i) == Balance(log + [m], i) >= 0
    ensures m.Done? ==> m.index in s.pending
  {
    hide Legal, Settled;
    assert (log + [m])[..|log|] == log;
    forall i: nat ensures Count(Bumped(s, m), i) == Balance(log + [m], i) >= 0 {
      assert Count(s.pending, i) == Balance(log, i);
      assert Balance(log + [m], i) == Balance(log, i) + Delta(m, i);
    }
    assert m.Done? ==> Count(s.pending, m.index) > 0;
  }

  /** The mark invariant from what a bump does to the counts and popping to the mark. */
  lemma Reassemble(base: nat, strict: bool, log: seq<Mark>, s: State, m: Mark, bumped: map<nat, int>, t: State)
    requires MarkInvariant(base, strict, log, s) && MayFollow(base, strict, log, m) && !m.Wait?
    requires s.doneUntil <= m.index && (m.Begin? && strict ==> s.doneUntil < m.index)
    requires m.Done? ==> m.index in s.pending
    requires forall i: nat :: Count(bumped, i) == Balance(log + [m], i) >= 0
    requires bumped.Keys == s.pending.Keys + {m.index}
    requires s.doneUntil <= t.doneUntil && Popped(s, bumped, t)
    ensures MarkInvariant(base, strict, log + [m], t)
  {
    forall i: nat | Begin(i) in log + [m] ensures i in t.pending || i <= t.doneUntil {
      InLog(log, m, Begin(i));
    }
    forall i | i in bumped
      ensures Begin(i) in log + [m] && s.doneUntil <= i && (strict ==> s.doneUntil < i)
    {
      InLog(log, m, Begin(i));
    }
    InLog(log, m, Begin(s.doneUntil));
    forall i | i in t.pending ensures i in bumped && (strict ==> t.doneUntil < i) {
      assert Count(t.pending, i) == Count(bumped, i);
    }
  }

  lemma BumpFloor(base: nat, strict: bool, log: seq<Mark>, s: State, m: Mark)
    requires MarkInvariant(base, strict, log, s) && MayFollow(base, strict, log, m) && !m.Wait?
    ensures forall i | i in Bumped(s, m) :: Bumped(s, m)[i] >= 0 && s.doneUntil <= i
  {
    hide Balance, MayFollow;
    BumpCounts(base, strict, log, s, m);
    forall i | i in Bumped(s, m) ensures Bumped(s, m)[i] >= 0 && s.doneUntil <= i {
      assert Count(Bumped(s, m), i) >= 0;
    }
  }

  lemma BumpKeepsMark(base: nat, strict: bool, log: seq<Mark>, s: State, m: Mark)
    requires MarkInvariant(base, strict, log, s) && MayFollow(base, strict, log, m) && !m.Wait?
    ensures !Panics(s, m) && s.doneUntil <= Process(s, m).doneUntil
    ensures MarkInvariant(base, strict, log + [m], Process(s, m))
  {
    hide MarkInvariant, MayFollow, Popped, Settled, SettledSet, MaxOr, Balance, Count;
    BumpCounts(base, strict, log, s, m);
    BumpFloor(base, strict, log, s, m);
    var bumped := Bumped(s, m);
    AfterPop(bumped, s.doneUntil);
    BumpSettles(s, bumped);
    Reassemble(base, strict, log, s, m, bumped, AfterBump(s, bumped));
  }

  ghost predicate Popped(s: State, bumped: map<nat, int>, t: State) {
    && t.pending.Keys <= bumped.Keys
    && (forall i: nat :: Count(t.pending, i) == Count(bumped, i))
    && (forall i | i in t.pending :: t.doneUntil <= i && !Settled(t.pending, i))
    && (forall i | i in t.pending :: t.doneUntil == s.doneUntil || t.doneUntil < i)
    && (t.doneUntil == s.doneUntil || t.doneUntil in bumped)
    && (forall i | i in bumped :: i in t.pending || i <= t.doneUntil)
  }

  lemma BumpSettles(s: State, bumped: map<nat, int>)
    requires forall i | i in bumped :: s.doneUntil <= i && bumped[i] >= 0
    ensures Popped(s, bumped, AfterBump(s, bumped))
  {
    AfterPop(bumped, s.doneUntil);
    var settled := SettledSet(bumped);
    var t := AfterBump(s, bumped);
    forall i: nat ensures Count(t.pending, i) == Count(bumped, i) {
      if i in settled {
        assert Settled(bumped, i);
      }
    }
    forall i | i in t.pending ensures !Settled(t.pending, i) {
      assert !Settled(bumped, i);
      var j :| j in bumped && j <= i && bumped[j] > 0;
      assert !Settled(bumped, j);
      assert j in t.pending && t.pending[j] > 0;
    }
  }

  lemma BumpKeepsWaiters(log: seq<Mark>, s: State, m: Mark)
    requires WaiterInvariant(log, s) && !m.Wait? && !Panics(s, m)
    requires s.doneUntil <= Process(s, m).doneUntil
    ensures WaiterInvariant(log + [m], Process(s, m))
  {
    var now := log + [m];
    var t := Process(s, m);
    assert forall k: nat, w :: Wait(k, w) in now <==> Wait(k, w) in log;
    forall w | w in t.closed ensures exists k: nat :: k <= t.doneUntil && Wait(k, w) in now {
      if w in s.closed {
        var k: nat :| k <= s.doneUntil && Wait(k, w) in log;
        assert Wait(k, w) in now;
      } else {
        var k :| k in s.waiters && k <= t.doneUntil && w in s.waiters[k];
        assert Wait(k, w) in now;
      }
    }
  }

  lemma WaitKeepsMarks(base: nat, strict: bool, log: seq<Mark>, s: State, m: Mark)
    requires MarkInvariant(base, strict, log, s) && m.Wait?
    ensures MarkInvariant(base, strict, log + [m], Process(s, m))
  {
    hide Settled, Legal;
    assert (log + [m])[..|log|] == log;
    assert forall i: nat :: Balance(log + [m], i) == Balance(log, i);
  }

  lemma WaitKeepsWaiters(log: seq<Mark>, s: State, m: Mark)
    requires WaiterInvariant(log, s) && m.Wait?
    ensures WaiterInvariant(log + [m], Process(s, m))
  {
    var now, t := log + [m], Process(s, m);
    assert forall x :: x in now <==> x in log || x == m;
    forall w | w in t.closed ensures exists k: nat :: k <= t.doneUntil && Wait(k, w) in now {
      if w in s.closed {
        var k: nat :| k <= s.doneUntil && Wait(k, w) in log;
        assert Wait(k, w) in now;
      } else {
        assert Wait(m.index, w) in now;
      }
    }
  }

  lemma WaitKeeps(base: nat, strict: bool, log: seq<Mark>, s: State, m: Mark)
    requires Invariant(base, strict, log, s) && m.Wait?
    ensures Invariant(base, strict, log + [m], Process(s, m))
  {
    WaitKeepsMarks(base, strict, log, s, m);
    WaitKeepsWaiters(log, s, m);
  }

  /** The assertion in processOne never fires, and the invariant holds after every mark. */
  lemma {:induction false} RunInvariant(base: nat, strict: bool, log: seq<Mark>)
    requires Legal(base, strict, log)
    ensures Invariant(base, strict, log, Run(base, log))
    ensures log != [] ==> !Panics(Run(base, log[..|log| - 1]), log[|log| - 1])
  {
    if log != [] {
      var before, m := log[..|log| - 1], log[|log| - 1];
      RunInvariant(base, strict, before);
      assert log == before + [m];
      if m.Wait? {
        WaitKeeps(base, strict, before, Run(base, before), m);
      } else {
        BumpKeepsMark(base, strict, before, Run(base, before), m);
        BumpKeepsWaiters(before, Run(base, before), m);
      }
    }
  }

  lemma {:induction false} LegalPrefix(base: nat, strict: bool, log: seq<Mark>, p: nat)
    requires Legal(base, strict, log) && p <= |log|
    ensures Legal(base, strict, log[..p])
  {
    if p == |log| {
      assert log[..p] == log;
    } else {
      LegalPrefix(base, strict, log[..|log| - 1], p);
      assert log[..|log| - 1][..p] == log[..p];
    }
  }

  /** doneUntil never decreases. */
  lemma {:induction false} Monotone(base: nat, strict: bool, log: seq<Mark>, p: nat)
    requires Legal(base, strict, log) && p <= |log|
    ensures Run(base, log[..p]).doneUntil <= Run(base, log).doneUntil
  {
    if p == |log| {
      assert log[..p] == log;
    } else {
      var before := log[..|log| - 1];
      Monotone(base, strict, before, p);
      assert before[..p] == log[..p];
      RunInvariant(base, strict, before);
      var m := log[|log| - 1];
      if !m.Wait? {
        BumpKeepsMark(base, strict, before, Run(base, before), m);
      }
    }
  }

  lemma {:induction false} OutstandingWasBegun(base: nat, strict: bool, log: seq<Mark>, p: nat, i: nat)
    requires Legal(base, strict, log) && p <= |log| && Balance(log, i) > 0
    ensures Balance(log[..p], i) > 0 || exists q :: p <= q < |log| && log[q] == Begin(i)
    decreases |log|
  {
    if p == |log| {
      assert log[..p] == log;
    } else {
      var before, m := log[..|log| - 1], log[|log| - 1];
      assert before[..p] == log[..p];
      if m != Begin(i) {
        OutstandingWasBegun(base, strict, before, p, i);
        if q :| p <= q < |before| && before[q] == Begin(i) {
          assert log[q] == Begin(i);
        }
      } else {
        assert log[|log| - 1] == Begin(i);
      }
    }
  }

  lemma {:induction false} LaterBegin(base: nat, strict: bool, log: seq<Mark>, p: nat, q: nat, j: nat)
    requires Legal(base, strict, log) && p <= q < |log| && log[q].Begin?
    ensures base <= log[q].index && (strict ==> base < log[q].index)
    ensures Begin(j) in log[..p] ==> j <= log[q].index && (strict ==> j < log[q].index)
  {
    LegalPrefix(base, strict, log, q + 1);
    var upto := log[..q + 1];
    assert upto[..q] == log[..q];
    assert MayFollow(base, strict, log[..q], log[q]);
    if Begin(j) in log[..p] {
      var at :| 0 <= at < p && log[at] == Begin(j);
      assert log[..q][at] == Begin(j);
    }
  }

  /** At every moment, with any number of marks still queued, the mark has not passed an index
      whose Done has not been sent; when no index is begun twice it has not reached it. */
  lemma NeverPasses(base: nat, strict: bool, log: seq<Mark>, p: nat, i: nat)
    requires Legal(base, strict, log) && p <= |log| && Balance(log, i) > 0
    ensures Run(base, log[..p]).doneUntil <= i
    ensures strict ==> Run(base, log[..p]).doneUntil < i
  {
    LegalPrefix(base, strict, log, p);
    RunInvariant(base, strict, log[..p]);
    var s := Run(base, log[..p]);
    OutstandingWasBegun(base, strict, log, p, i);
    if Balance(log[..p], i) > 0 {
      assert Count(s.pending, i) > 0;
    } else {
      var q :| p <= q < |log| && log[q] == Begin(i);
      LaterBegin(base, strict, log, p, q, s.doneUntil);
    }
  }

  /** The mark is as high as it can be: it reaches j once everything up to j is done. */
  lemma Reaches(base: nat, strict: bool, log: seq<Mark>, j: nat)
    requires Legal(base, strict, log) && (Begin(j) in log || j == base)
    requires forall i: nat | i <= j :: Balance(log, i) == 0
    ensures j <= Run(base, log).doneUntil
  {
    RunInvariant(base, strict, log);
    var s := Run(base, log);
    if j in s.pending {
      assert forall i | i in s.pending && i <= j :: Count(s.pending, i) == 0;
      assert false;
    }
  }

  /** A waiter at k is released by exactly the mark that brings doneUntil to k or beyond. */
  lemma WaiterReleased(base: nat, strict: bool, log: seq<Mark>, k: nat, w: Waiter)
    requires Legal(base, strict, log) && Wait(k, w) in log
    ensures w in Run(base, log).closed <==> k <= Run(base, log).doneUntil
  {
    RunInvariant(base, strict, log);
    var s := Run(base, log);
    if w in s.closed {
      var j: nat :| j <= s.doneUntil && Wait(j, w) in log;
      WaitsOnce(base, strict, log, j, k, w);
    }
  }

  lemma {:induction false} WaitsOnce(base: nat, strict: bool, log: seq<Mark>, j: nat, k: nat, w: Waiter)
    requires Legal(base, strict, log) && Wait(j, w) in log && Wait(k, w) in log
    ensures j == k
  {
    var before, m := log[..|log| - 1], log[|log| - 1];
    assert log == before + [m];
    InLog(before, m, Wait(j, w));
    InLog(before, m, Wait(k, w));
    if Wait(j, w) in before && Wait(k, w) in before {
      WaitsOnce(base, strict, before, j, k, w);
    }
  }
}
