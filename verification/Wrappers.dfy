/** What several modules share. */
module Wrappers {
  datatype Option<T> = None | Some(value: T)

  lemma Associate<T>(a: seq<T>, b: seq<T>, c: seq<T>)
    ensures (a + b) + c == a + (b + c)
  {
  }

  // ---------- Sifting ----------

  /** `at` are the places in `all` of what meets `keep`, in order, and `kept` is what is there. */
  ghost predicate SiftedAt<T>(all: seq<T>, keep: T -> bool, kept: seq<T>, at: seq<nat>) {
    && |at| == |kept| && (forall i, j | 0 <= i < j < |at| :: at[i] < at[j])
    && (forall i | 0 <= i < |at| :: at[i] < |all| && keep(all[at[i]]) && kept[i] == all[at[i]])
    && forall k | 0 <= k < |all| && keep(all[k]) :: k in at
  }

  /** `kept` is all that meets `keep`, in order. */
  ghost predicate Sifted<T>(all: seq<T>, keep: T -> bool, kept: seq<T>) {
    exists at :: SiftedAt(all, keep, kept, at)
  }

  lemma SiftNothing<T>(keep: T -> bool)
    ensures Sifted([], keep, [])
  {
    assert SiftedAt([], keep, [], []);
  }

  lemma KeepsLast<T>(all: seq<T>, keep: T -> bool, kept: seq<T>, at: seq<nat>, x: T)
    requires SiftedAt(all, keep, kept, at) && keep(x)
    ensures SiftedAt(all + [x], keep, kept + [x], at + [|all|])
  {
    var more, now, places := all + [x], kept + [x], at + [|all|];
    assert places[|at|] == |all| && now[|at|] == x && more[|all|] == x;
    forall i | 0 <= i < |places| ensures places[i] < |more| && keep(more[places[i]]) && now[i] == more[places[i]] {
      if i < |at| {
        assert places[i] == at[i] && now[i] == kept[i] && more[at[i]] == all[at[i]];
      }
    }
    forall k | 0 <= k < |more| && keep(more[k]) ensures k in places {
      if k < |all| {
        assert more[k] == all[k];
        var i :| 0 <= i < |at| && at[i] == k;
        assert places[i] == k;
      }
    }
  }

  lemma SiftMore<T>(all: seq<T>, keep: T -> bool, kept: seq<T>, x: T)
    requires Sifted(all, keep, kept)
    ensures Sifted(all + [x], keep, if keep(x) then kept + [x] else kept)
  {
    var at: seq<nat> :| SiftedAt(all, keep, kept, at);
    var more := all + [x];
    assert forall k | 0 <= k < |all| :: more[k] == all[k];
    assert more[|all|] == x;
    if keep(x) {
      KeepsLast(all, keep, kept, at, x);
      assert SiftedAt(more, keep, kept + [x], at + [|all|]);
    } else {
      assert SiftedAt(more, keep, kept, at);
    }
  }

  /** What all of `more` adds. */
  lemma {:induction false} SiftAll<T>(all: seq<T>, keep: T -> bool, kept: seq<T>, more: seq<T>)
    requires Sifted(all, keep, kept) && forall i | 0 <= i < |more| :: keep(more[i])
    ensures Sifted(all + more, keep, kept + more)
  {
    hide Sifted, SiftedAt;
    if more == [] {
      assert all + more == all && kept + more == kept;
    } else {
      var front, x := more[..|more| - 1], more[|more| - 1];
      SiftAll(all, keep, kept, front);
      SiftMore(all + front, keep, kept + front, x);
      assert all + more == (all + front) + [x] && kept + more == (kept + front) + [x];
    }
  }

  lemma SiftedOne<T>(all: seq<T>, keep: T -> bool, kept: seq<T>, at: seq<nat>, x: T)
    requires SiftedAt(all, keep, kept, at)
    ensures x in all && keep(x) ==> x in kept
    ensures x in kept ==> x in all && keep(x)
  {
    if x in kept {
      var i :| 0 <= i < |kept| && kept[i] == x;
      assert all[at[i]] == x;
    }
    if x in all && keep(x) {
      var k :| 0 <= k < |all| && all[k] == x;
      var i :| 0 <= i < |at| && at[i] == k;
      assert kept[i] == x;
    }
  }

  lemma SiftedHas<T>(all: seq<T>, keep: T -> bool, kept: seq<T>)
    requires Sifted(all, keep, kept)
    ensures forall x :: x in kept <==> x in all && keep(x)
  {
    var at: seq<nat> :| SiftedAt(all, keep, kept, at);
    hide SiftedAt;
    forall x ensures x in kept <==> x in all && keep(x) {
      SiftedOne(all, keep, kept, at, x);
    }
  }
}
