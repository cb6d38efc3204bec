/** y/watermark.go: the minimum unfinished index. `WaterMark` is the processing loop over the
    mark channel; the lemmas at the end are about every sequence of marks the oracle can send. */
module Watermark {
  type Waiter = nat

  datatype Mark =
    | Begin(index: nat)
    | Done(index: nat)
    | Wait(index: nat, waiter: Waiter)

  datatype State = State(
    doneUntil: nat,
    pending: map<nat, int>,
    waiters: map<nat, set<Waiter>>,
    closed: set<Waiter>)

  // ---------- What one mark does ----------

  function Count(pending: map<nat, int>, index: nat): int {
    if index in pending then pending[index] else 0
  }

  function Bump(pending: map<nat, int>, index: nat, delta: int): map<nat, int> {
    pending[index := Count(pending, index) + delta]
  }

  /** Every index up to i has had as many Dones as Begins. */
  ghost predicate Settled(pending: map<nat, int>, i: nat) {
    i in pending && forall j | j in pending && j <= i :: pending[j] <= 0
  }

  ghost function SettledSet(pending: map<nat, int>): set<nat> {
    set i | i in pending && Settled(pending, i)
  }

  ghost predicate IsMax(s: set<nat>, m: nat) {
    m in s && forall i | i in s :: i <= m
  }

  lemma {:induction false} MaxExists(s: set<nat>)
    requires s != {}
    ensures exists m :: IsMax(s, m)
    decreases |s|
  {
    var x :| x in s;
    if s == {x} {
      assert IsMax(s, x);
    } else {
      MaxExists(s - {x});
      var m :| IsMax(s - {x}, m);
      forall i | i in s ensures i <= if x <= m then m else x {
        assert i == x || i in s - {x};
      }
      assert IsMax(s, if x <= m then m else x);
    }
  }

  ghost function MaxOr(s: set<nat>, default: nat): (m: nat)
    ensures s == {} ==> m == default
    ensures s != {} ==> IsMax(s, m)
  {
    if s == {} then default else
      MaxExists(s);
      var m :| IsMax(s, m);
      m
  }

  ghost function WaitersUpTo(waiters: map<nat, set<Waiter>>, until: nat): set<Waiter> {
    set k, w | k in waiters && k <= until && w in waiters[k] :: w
  }

  function WaitersAbove(waiters: map<nat, set<Waiter>>, until: nat): map<nat, set<Waiter>> {
    map k | k in waiters && k > until :: waiters[k]
  }

  ghost function AfterBump(s: State, pending: map<nat, int>): State {
    var until := MaxOr(SettledSet(pending), s.doneUntil);
    State(until, pending - SettledSet(pending), WaitersAbove(s.waiters, until),
          s.closed + WaitersUpTo(s.waiters, until))
  }

  /** Popping leaves only indices above the new mark, and never moves the mark back. */
  lemma AfterPop(pending: map<nat, int>, doneUntil: nat)
    requires forall i | i in pending :: i >= doneUntil
    ensures var until := MaxOr(SettledSet(pending), doneUntil);
            && until >= doneUntil
            && forall i | i in pending && i !in SettledSet(pending) :: i >= until
  {
    var popped := SettledSet(pending);
    var until := MaxOr(popped, doneUntil);
    forall i | i in pending && i !in popped ensures i >= until {
      if popped != {} && i < until {
        assert until in popped;
        assert Settled(pending, i);
      }
    }
  }

  /** The assertion in processOne kills the process when an index falls behind doneUntil. */
  predicate Panics(s: State, m: Mark) {
    !m.Wait? && m.index < s.doneUntil
  }

  ghost function Process(s: State, m: Mark): State
    requires !Panics(s, m)
  {
    match m
    case Begin(i) => AfterBump(s, Bump(s.pending, i, 1))
    case Done(i) => AfterBump(s, Bump(s.pending, i, -1))
    case Wait(i, w) =>
      if s.doneUntil >= i then s.(closed := s.closed + {w})
      else s.(waiters := s.waiters[i := (if i in s.waiters then s.waiters[i] else {}) + {w}])
  }

  // ---------- The processing loop ----------

  ghost predicate StrictlySorted(s: seq<nat>) {
    forall i, j | 0 <= i < j < |s| :: s[i] < s[j]
  }

  /** The smallest pending index, once its count is spent, is settled like those popped before it. */
  lemma FrontSettles(all: map<nat, int>, popped: set<nat>, pending: map<nat, int>, min: nat)
    requires pending == all - popped && (forall i | i in popped :: Settled(all, i) && i < min)
    requires min in pending && pending[min] <= 0 && forall j | j in pending :: min <= j
    ensures Settled(all, min) && forall default: nat :: MaxOr(popped + {min}, default) == min
  {
    forall j | j in all && j <= min ensures all[j] <= 0 {
      assert j in popped || j in pending;
    }
    assert IsMax(popped + {min}, min);
  }

  /** When the smallest pending index is not spent, everything settled has been popped. */
  lemma PoppedAll(all: map<nat, int>, popped: set<nat>, pending: map<nat, int>)
    requires pending == all - popped && forall i | i in popped :: i in all && Settled(all, i)
    requires pending == map[] || exists min :: min in pending && pending[min] > 0 && forall j | j in pending :: min <= j
    ensures popped == SettledSet(all)
  {
    forall j | j in SettledSet(all) ensures j in popped {
      assert j in popped || j in pending;
    }
  }

  lemma PopFront(s: seq<nat>)
    requires StrictlySorted(s) && s != []
    ensures StrictlySorted(s[1..]) && (set i | i in s[1..]) == (set i | i in s) - {s[0]}
    ensures forall j | j in s[1..] :: s[0] < j
    ensures forall j | j in s :: s[0] <= j
  {
    assert s == [s[0]] + s[1..];
  }

  class WaterMark {
    var doneUntil: nat
    var indices: seq<nat>  // the heap; its minimum is at the front
    var pending: map<nat, int>
    var waiters: map<nat, set<Waiter>>
    var closed: set<Waiter>  // waiter channels closed so far

    ghost predicate Valid()
      reads this
    {
      && StrictlySorted(indices)
      && (set i | i in indices) == pending.Keys
      && (forall i | i in pending :: i >= doneUntil)
      && (forall k | k in waiters :: k > doneUntil)
    }

    ghost function Value(): State
      reads this
    {
      State(doneUntil, pending, waiters, closed)
    }

    constructor ()
      ensures Valid() && Value() == State(0, map[], map[], {})
    {
      doneUntil, indices, pending, waiters, closed := 0, [], map[], map[], {};
    }

    method Push(index: nat)
      requires StrictlySorted(indices) && index !in indices
      modifies this`indices
      ensures StrictlySorted(indices)
      ensures forall i :: i in indices <==> i in old(indices) || i == index
    {
      var at := 0;
      while at < |indices| && indices[at] < index
        invariant at <= |indices|
        invariant forall i | 0 <= i < at :: indices[i] < index
      {
        at := at + 1;
      }
      indices := indices[..at] + [index] + indices[at..];
    }

    /** Pops every index that has no earlier unfinished index. */
    method PopSettled() returns (until: nat)
      requires StrictlySorted(indices) && (set i | i in indices) == pending.Keys
      modifies this`indices, this`pending
      ensures StrictlySorted(indices) && (set i | i in indices) == pending.Keys
      ensures pending == old(pending) - SettledSet(old(pending))
      ensures until == MaxOr(SettledSet(old(pending)), doneUntil)
    {
      hide Settled, SettledSet, IsMax, StrictlySorted;
      until := doneUntil;
      ghost var all := pending;
      ghost var popped: set<nat> := {};
      while |indices| > 0 && pending[indices[0]] <= 0
        invariant StrictlySorted(indices) && (set i | i in indices) == pending.Keys
        invariant pending == all - popped && popped <= all.Keys
        invariant forall i | i in popped :: Settled(all, i)
        invariant forall i, j | i in popped && j in pending :: i < j
        invariant until == MaxOr(popped, doneUntil)
        decreases |indices|
      {
        var min := indices[0];
        assert min in indices;
        PopFront(indices);
        forall j | j in pending ensures min <= j {
          assert j in (set i | i in indices);
        }
        FrontSettles(all, popped, pending, min);
        indices := indices[1..];
        pending := pending - {min};
        popped := popped + {min};
        until := min;
      }
      if |indices| > 0 {
        PopFront(indices);
        assert indices[0] in indices;
        forall j | j in pending ensures indices[0] <= j {
          assert j in (set i | i in indices);
        }
      }
      PoppedAll(all, popped, pending);
    }

    method NotifyAndRemove(index: nat)
      requires index in waiters
      modifies this`waiters, this`closed
      ensures closed == old(closed) + old(waiters)[index]
      ensures waiters == old(waiters) - {index}
    {
      closed := closed + waiters[index];
      waiters := waiters - {index};
    }

    /** Both notification loops: over the integers just passed when they are few, over the
        waiter map otherwise. */
    method Notify(from: nat, until: nat)
      requires from <= until && forall k | k in waiters :: k > from
      modifies this`waiters, this`closed
      ensures waiters == WaitersAbove(old(waiters), until)
      ensures closed == old(closed) + WaitersUpTo(old(waiters), until)
    {
      if until - from <= |waiters| {
        var index := from + 1;
        while index <= until
          invariant from < index <= until + 1
          invariant waiters == WaitersAbove(old(waiters), index - 1)
          invariant closed == old(closed) + WaitersUpTo(old(waiters), index - 1)
        {
          if index in waiters {
            NotifyAndRemove(index);
          }
          index := index + 1;
        }
      } else {
        var todo := waiters.Keys;
        while todo != {}
          invariant todo <= waiters.Keys <= old(waiters).Keys
          invariant forall k | k in waiters :: waiters[k] == old(waiters)[k]
          invariant forall k | k in old(waiters) ::
              k !in todo ==> (k in waiters <==> k > until)
          invariant closed == old(closed) +
              (set k, w | k in old(waiters) && k !in waiters && w in old(waiters)[k] :: w)
          decreases todo
        {
          var index :| index in todo;
          if index <= until {
            NotifyAndRemove(index);
          }
          todo := todo - {index};
        }
      }
    }

    method ProcessOne(index: nat, done: bool)
      requires Valid() && index >= doneUntil
      modifies this
      ensures Valid() && Value() == Process(old(Value()), if done then Done(index) else Begin(index))
    {
      if index !in pending {
        Push(index);
      }
      pending := Bump(pending, index, if done then -1 else 1);
      ghost var bumped := pending;
      assert (set i | i in indices) == pending.Keys;
      var from := doneUntil;
      AfterPop(bumped, from);
      var until := PopSettled();
      doneUntil := until;
      Notify(from, until);
    }

    method ProcessWait(index: nat, waiter: Waiter)
      requires Valid()
      modifies this
      ensures Valid() && Value() == Process(old(Value()), Wait(index, waiter))
    {
      if doneUntil >= index {
        closed := closed + {waiter};
      } else if index !in waiters {
        assert {} + {waiter} == {waiter};
        waiters := waiters[index := {waiter}];
      } else {
        waiters := waiters[index := waiters[index] + {waiter}];
      }
    }

  }
}
