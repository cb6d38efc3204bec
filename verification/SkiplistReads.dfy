/** skl/skl.go: the searches, over any list the Puts can have built. */
module SkiplistReads {
  import opened Keys
  import opened Skiplist
  import opened SkiplistSafety
  import opened Wrappers

  /** A linked node other than the head. */
  ghost predicate Entry(l: List, n: Ref) {
    n != HEAD && OnLevel(l, 0, n)
  }

  /** Strictly or loosely before the key, or after it. */
  predicate Within(l: List, n: Ref, key: InternalKey, less: bool, allowEqual: bool)
    requires 0 <= n < |l.nodes|
  {
    var k := l.nodes[n].key;
    (if less then Before(k, key) else Before(key, k)) || (allowEqual && k == key)
  }

  /** The node nearest to the key on the side asked for, or nil when there is none there. */
  ghost predicate Nearest(l: List, key: InternalKey, less: bool, allowEqual: bool, n: Ref) {
    && (n != NIL ==> Entry(l, n) && Within(l, n, key, less, allowEqual))
    && forall o | Entry(l, o) && Within(l, o, key, less, allowEqual) ::
         n != NIL && (o == n || (0 <= n < |l.nodes| &&
           if less then Before(l.nodes[o].key, l.nodes[n].key) else Before(l.nodes[n].key, l.nodes[o].key)))
  }

  /** Below x and beyond its successor nothing is nearer. */
  lemma NearestAround(l: List, x: Ref, next: Ref, key: InternalKey)
    requires ListOk(l) && OnLevel(l, 0, x) && Below(l, x, key) && next == Next(l, 0, x)
    requires next != NIL ==> 0 <= next < |l.nodes| && !Before(l.nodes[next].key, key)
    ensures forall o | Entry(l, o) && Before(l.nodes[o].key, key) :: x != HEAD && (o == x || Before(l.nodes[o].key, l.nodes[x].key))
    ensures forall o | Entry(l, o) && !Before(l.nodes[o].key, key) :: next != NIL && (o == next || Before(l.nodes[next].key, l.nodes[o].key))
  {
    assert PointsToSuccessor(l, 0, x);
    forall o | Entry(l, o) && Before(l.nodes[o].key, key) ensures x != HEAD && (o == x || Before(l.nodes[o].key, l.nodes[x].key)) {
      assert !Below(l, x, l.nodes[o].key);
    }
  }

  method FindNear(l: List, key: InternalKey, less: bool, allowEqual: bool) returns (n: Ref, equal: bool)
    requires ListOk(l)
    ensures Nearest(l, key, less, allowEqual, n)
    ensures equal <==> n != NIL && l.nodes[n].key == key
  {
    var x, level := HEAD, l.height - 1;
    while true
      invariant 0 <= level < MAX_HEIGHT && OnLevel(l, level, x) && Below(l, x, key)
      decreases level, |Ahead(l, 0, x)|
    {
      assert PointsToSuccessor(l, level, x) && OnLevel(l, 0, x);
      var next := Next(l, level, x);
      if next != NIL && Before(l.nodes[next].key, key) {
        assert OnLevel(l, 0, next);
        AheadShrinks(l, 0, x, next);
        x := next;
        continue;
      }
      if next != NIL && l.nodes[next].key == key {
        assert OnLevel(l, 0, next) && PointsToSuccessor(l, 0, next);
        if allowEqual {
          assert forall o | Entry(l, o) && l.nodes[o].key == key :: o == next;
          return next, true;
        }
        if !less {
          NearestAfter(l, next, key);
          return Next(l, 0, next), false;
        }
      }
      if level > 0 {
        assert OnLevel(l, level - 1, x);
        level := level - 1;
        continue;
      }
      NearestAround(l, x, next, key);
      if !less {
        return next, false;
      }
      if x == HEAD {
        return NIL, false;
      }
      return x, false;
    }
  }

  lemma NearestAfter(l: List, n: Ref, key: InternalKey)
    requires ListOk(l) && Entry(l, n) && l.nodes[n].key == key
    ensures Nearest(l, key, false, false, Next(l, 0, n))
    ensures Next(l, 0, n) != NIL ==> 0 <= Next(l, 0, n) < |l.nodes| && l.nodes[Next(l, 0, n)].key != key
  {
    assert PointsToSuccessor(l, 0, n);
  }

  method FindLast(l: List) returns (n: Ref)
    requires ListOk(l)
    ensures n == NIL ==> forall o :: !Entry(l, o)
    ensures n != NIL ==> Entry(l, n) && forall o | Entry(l, o) && o != n :: Before(l.nodes[o].key, l.nodes[n].key)
  {
    n := HEAD;
    var level := l.height - 1;
    while true
      invariant 0 <= level < MAX_HEIGHT && OnLevel(l, level, n)
      decreases level, |Ahead(l, 0, n)|
    {
      assert PointsToSuccessor(l, level, n) && OnLevel(l, 0, n);
      var next := Next(l, level, n);
      if next != NIL {
        assert OnLevel(l, 0, next);
        AheadShrinks(l, 0, n, next);
        n := next;
        continue;
      }
      if level == 0 {
        assert forall o | Entry(l, o) && o != n :: !Below(l, n, l.nodes[o].key);
        if n == HEAD {
          return NIL;
        }
        return;
      }
      assert OnLevel(l, level - 1, n);
      level := level - 1;
    }
  }

  /** Get: the newest version of the user key at or below `ts` in the map the Puts built. */
  method Get(l: List, user: UserKey, ts: nat) returns (found: Option<(int, nat)>)
    requires ListOk(l)
    ensures found.None? ==> forall k | k in Contents(l) && k.user == user :: ts < k.ts
    ensures found.Some? ==>
        var key := InternalKey(user, found.value.1);
        && key.ts <= ts && key in Contents(l) && Contents(l)[key] == found.value.0
        && forall k | k in Contents(l) && k.user == user && k.ts <= ts :: k.ts <= key.ts
  {
    var key := InternalKey(user, ts);
    var n, _ := FindNear(l, key, false, true);
    forall k | k in Contents(l) && k.user == user && k.ts <= ts
      ensures n != NIL && l.nodes[n].key.user == user && k.ts <= l.nodes[n].key.ts
    {
      var o := ContentsKey(l, k);
      assert Entry(l, o) && Within(l, o, key, false, true);
    }
    if n == NIL {
      return None;
    }
    if l.nodes[n].key.user != user {
      return None;
    }
    ContentsNode(l, n);
    return Some((l.nodes[n].value, l.nodes[n].key.ts));
  }
}
