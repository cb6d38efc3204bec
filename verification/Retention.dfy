/** Exactly which versions a compaction keeps, and which of them it counts as stale. */
module Retention {
  import opened Keys
  import opened Compaction
  import opened Snapshots
  import opened Wrappers

  // ---------- The rule ----------

  /** A version that counts towards the number of versions to keep. */
  predicate Counts(p: Params, e: Entry) {
    e.key.ts <= p.discardTs && !e.merge && !p.dropped(e.key)
  }

  /** The counting versions of the key of `e` above it. */
  ghost function Above(p: Params, es: seq<Entry>, e: Entry): set<Entry> {
    set c | c in es && c.key.user == e.key.user && e.key.ts < c.key.ts && Counts(p, c)
  }

  /** Fewer than the number to keep, and none of them ends its key. Zero stands for no limit. */
  ghost predicate Few(p: Params, above: set<Entry>) {
    && (p.versionsToKeep == 0 || |above| < p.versionsToKeep)
    && forall c | c in above :: !c.dead && !c.discardEarlier
  }

  /** A version is kept if few enough counting versions are above it, none of them deleted, expired or
      marked to discard what is below; and if it is deleted or expired itself, only if it does not
      count or something overlaps. */
  ghost predicate Kept(p: Params, es: seq<Entry>, e: Entry) {
    && e in es && !p.dropped(e.key) && Few(p, Above(p, es, e))
    && (Counts(p, e) && e.dead ==> p.hasOverlap)
  }

  /** The newest version of the key that is not dropped is marked to discard what is below. */
  ghost predicate Discards(p: Params, es: seq<Entry>, user: UserKey) {
    exists f :: f in es && f.key.user == user && !p.dropped(f.key) && f.discardEarlier
      && forall g | g in es && g.key.user == user && !p.dropped(g.key) :: g.key.ts <= f.key.ts
  }

  // ---------- What the cursor stands for ----------

  ghost function CountedOf(p: Params, done: seq<Entry>, user: UserKey): set<Entry> {
    set c | c in done && c.key.user == user && Counts(p, c)
  }

  ghost predicate HasUser(p: Params, done: seq<Entry>, user: UserKey) {
    exists x :: x in done && x.key.user == user && !p.dropped(x.key)
  }

  /** The cursor after the entries of `done`. */
  ghost predicate CursorAt(p: Params, c: Cursor, done: seq<Entry>) {
    && (forall x | x in done && !p.dropped(x.key) :: c.lastKey.Some? && x.key.user <= c.lastKey.value)
    && (c.skipKey.Some? ==> c.skipKey == c.lastKey)
    && (c.lastKey.Some? ==>
          var user := c.lastKey.value;
          && HasUser(p, done, user) && (c.firstHasDiscard <==> Discards(p, done, user))
          && (c.skipKey.None? <==> Few(p, CountedOf(p, done, user)))
          && (c.skipKey.None? ==> c.numVersions == |CountedOf(p, done, user)|))
  }

  lemma CursorStart(p: Params)
    ensures CursorAt(p, START, [])
  {
  }

  /** The users of what is done do not come after the next one. */
  lemma NextUser(done: seq<Entry>, es: seq<Entry>)
    requires Sorted(done + es) && es != []
    ensures forall x | x in done :: Before(x.key, es[0].key)
  {
    forall x | x in done ensures Before(x.key, es[0].key) {
      var i :| 0 <= i < |done| && done[i] == x;
      assert (done + es)[i] == x && (done + es)[|done|] == es[0];
    }
  }

  lemma LaterKeys(done: seq<Entry>, es: seq<Entry>, e: Entry)
    requires Sorted(done + es) && es != [] && e in es[1..]
    ensures Before(es[0].key, e.key)
  {
    var i :| 1 <= i < |es| && es[i] == e;
    assert (done + es)[|done| + i] == e && (done + es)[|done|] == es[0];
  }

  lemma CountedMore(p: Params, done: seq<Entry>, h: Entry, user: UserKey)
    ensures CountedOf(p, done + [h], user) ==
            CountedOf(p, done, user) + if h.key.user == user && Counts(p, h) then {h} else {}
  {
  }

  lemma DiscardsMore(p: Params, done: seq<Entry>, h: Entry, user: UserKey)
    requires forall x | x in done :: Before(x.key, h.key)
    ensures HasUser(p, done, user) ==> (Discards(p, done + [h], user) <==> Discards(p, done, user))
    ensures !HasUser(p, done, user) && h.key.user == user && !p.dropped(h.key) ==>
              (Discards(p, done + [h], user) <==> h.discardEarlier)
    ensures HasUser(p, done, user) ==> HasUser(p, done + [h], user)
  {
    if HasUser(p, done, user) {
      if Discards(p, done, user) {
        var f :| f in done && f.key.user == user && !p.dropped(f.key) && f.discardEarlier
          && forall g | g in done && g.key.user == user && !p.dropped(g.key) :: g.key.ts <= f.key.ts;
        assert f in done + [h];
      }
      if Discards(p, done + [h], user) {
        var f :| f in done + [h] && f.key.user == user && !p.dropped(f.key) && f.discardEarlier
          && forall g | g in done + [h] && g.key.user == user && !p.dropped(g.key) :: g.key.ts <= f.key.ts;
        var x :| x in done && x.key.user == user && !p.dropped(x.key);
        assert x in done + [h] && f != h;
      }
      var x :| x in done && x.key.user == user && !p.dropped(x.key);
      assert x in done + [h];
    } else if h.key.user == user && !p.dropped(h.key) {
      assert h in done + [h];
    }
  }

  lemma PassedKeeps(p: Params, c: Cursor, done: seq<Entry>, es: seq<Entry>)
    requires Sorted(done + es) && es != [] && CursorAt(p, c, done) && Passed(p, c, es[0])
    ensures CursorAt(p, c, done + [es[0]])
  {
    var h := es[0];
    NextUser(done, es);
    if c.lastKey.Some? {
      var user := c.lastKey.value;
      CountedMore(p, done, h, user);
      DiscardsMore(p, done, h, user);
      if c.skipKey.Some? {
        MoreIsNotFew(p, CountedOf(p, done, user), CountedOf(p, done + [h], user));
      }
    }
  }

  lemma MoreIsNotFew(p: Params, a: set<Entry>, b: set<Entry>)
    requires a <= b && !Few(p, a)
    ensures !Few(p, b)
  {
    assert b == a + (b - a);
  }

  /** One more counting version ends its key, or leaves room for more. */
  lemma FewMore(p: Params, a: set<Entry>, h: Entry)
    requires Few(p, a) && h !in a
    ensures |a + {h}| == |a| + 1
    ensures Few(p, a + {h}) <==> !h.dead && !h.discardEarlier && |a| + 1 != p.versionsToKeep
  {
    assert h in a + {h};
  }

  lemma FirstOfUser(p: Params, c: Cursor, done: seq<Entry>, h: Entry)
    requires CursorAt(p, c, done) && c.lastKey != Some(h.key.user) && forall x | x in done :: Before(x.key, h.key)
    ensures !HasUser(p, done, h.key.user) && CountedOf(p, done, h.key.user) == {}
  {
    assert forall x | x in done :: x.key.user <= h.key.user;
  }

  /** What the cursor says of the key it has entered. */
  lemma Entered(p: Params, c: Cursor, done: seq<Entry>, es: seq<Entry>)
    requires Sorted(done + es) && es != [] && CursorAt(p, c, done) && !Passed(p, c, es[0])
    ensures var h, entered := es[0], Enter(c, es[0]);
            && entered.lastKey == Some(h.key.user) && entered.skipKey.None? && entered.numVersions == |CountedOf(p, done, h.key.user)|
            && Few(p, CountedOf(p, done, h.key.user))
            && (entered.firstHasDiscard <==> Discards(p, done + [h], h.key.user))
  {
    hide CountedOf, Discards, HasUser;
    NextUser(done, es);
    DiscardsMore(p, done, es[0], es[0].key.user);
    if c.lastKey != Some(es[0].key.user) {
      FirstOfUser(p, c, done, es[0]);
    }
  }

  lemma JudgedKeeps(p: Params, c: Cursor, done: seq<Entry>, es: seq<Entry>)
    requires Sorted(done + es) && es != [] && CursorAt(p, c, done) && !Passed(p, c, es[0])
    ensures CursorAt(p, Judge(p, Enter(c, es[0]), es[0]).0, done + [es[0]])
  {
    hide Discards, Few, CountedOf;
    var h := es[0];
    var a := CountedOf(p, done, h.key.user);
    Entered(p, c, done, es);
    NextUser(done, es);
    CountedMore(p, done, h, h.key.user);
    NotCounted(p, done, h);
    if Counts(p, h) {
      FewMore(p, a, h);
    } else {
      assert a + {} == a;
    }
    assert h in done + [h] && HasUser(p, done + [h], h.key.user);
    UsersReach(p, c, done, es);
  }

  lemma NotCounted(p: Params, done: seq<Entry>, h: Entry)
    requires forall x | x in done :: Before(x.key, h.key)
    ensures h !in CountedOf(p, done, h.key.user)
  {
  }

  lemma UsersReach(p: Params, c: Cursor, done: seq<Entry>, es: seq<Entry>)
    requires Sorted(done + es) && es != []
    ensures forall x | x in done + [es[0]] :: x.key.user <= es[0].key.user
  {
    NextUser(done, es);
  }

  // ---------- The result ----------

  /** What is above the next version is what counts so far. */
  lemma AboveNext(p: Params, done: seq<Entry>, es: seq<Entry>)
    requires Sorted(done + es) && es != []
    ensures Above(p, done + es, es[0]) == CountedOf(p, done, es[0].key.user)
  {
    NextUser(done, es);
    forall c | c in done + es && c.key.user == es[0].key.user && es[0].key.ts < c.key.ts ensures c in done {
      if c !in done {
        assert c in es && es == [es[0]] + es[1..];
        LaterKeys(done, es, c);
      }
    }
  }

  lemma {:induction false} KeptFrom(p: Params, c: Cursor, done: seq<Entry>, es: seq<Entry>, e: Entry)
    requires Sorted(done + es) && CursorAt(p, c, done) && e in es
    ensures e in Contents(FilterUntil(p, c, es, None)) <==> Kept(p, done + es, e)
    decreases |es|
  {
    hide CursorAt, Kept;
    var h, tail := es[0], es[1..];
    assert es == [h] + tail && (done + [h]) + tail == done + es;
    TailSorted(done, es);
    if e != h {
      if Passed(p, c, h) {
        PassedKeeps(p, c, done, es);
        KeptFrom(p, c, done + [h], tail, e);
      } else {
        JudgedKeeps(p, c, done, es);
        KeptFrom(p, Judge(p, Enter(c, h), h).0, done + [h], tail, e);
        OutputsJoin(p, c, es);
      }
    } else {
      KeptHere(p, c, done, es);
    }
  }

  lemma TailSorted(done: seq<Entry>, es: seq<Entry>)
    requires Sorted(done + es) && es != []
    ensures Sorted(es) && es[0] !in es[1..]
  {
    forall i, j | 0 <= i < j < |es| ensures Before(es[i].key, es[j].key) {
      assert (done + es)[|done| + i] == es[i] && (done + es)[|done| + j] == es[j];
    }
  }

  lemma OutputsJoin(p: Params, c: Cursor, es: seq<Entry>)
    requires es != [] && !Passed(p, c, es[0])
    ensures var (judged, keep) := Judge(p, Enter(c, es[0]), es[0]);
            Contents(FilterUntil(p, c, es, None)) ==
            (if keep then {es[0]} else {}) + Contents(FilterUntil(p, judged, es[1..], None))
  {
    var (judged, keep) := Judge(p, Enter(c, es[0]), es[0]);
    var rest := FilterUntil(p, judged, es[1..], None);
    assert FilterUntil(p, c, es, None) == Emit(Enter(c, es[0]), es[0], keep) + rest;
  }

  lemma KeptHere(p: Params, c: Cursor, done: seq<Entry>, es: seq<Entry>)
    requires Sorted(done + es) && es != [] && CursorAt(p, c, done)
    ensures es[0] in Contents(FilterUntil(p, c, es, None)) <==> Kept(p, done + es, es[0])
  {
    hide FilterUntil, Few, CountedOf, Above, Sorted;
    var h, tail := es[0], es[1..];
    AboveNext(p, done, es);
    TailSorted(done, es);
    assert h in done + es;
    if Passed(p, c, h) {
      PassedOut(p, c, es);
    } else {
      Entered(p, c, done, es);
      OutputsJoin(p, c, es);
      var (judged, keep) := Judge(p, Enter(c, h), h);
      NotInRest(p, judged, es);
      if Counts(p, h) {
        NotCountedNext(p, done, es);
        FewMore(p, CountedOf(p, done, h.key.user), h);
      }
    }
  }

  lemma PassedOut(p: Params, c: Cursor, es: seq<Entry>)
    requires Sorted(es) && es != [] && es[0] !in es[1..] && Passed(p, c, es[0])
    ensures es[0] !in Contents(FilterUntil(p, c, es, None))
  {
    NotInRest(p, c, es);
  }

  lemma NotInRest(p: Params, c: Cursor, es: seq<Entry>)
    requires Sorted(es) && es != [] && es[0] !in es[1..]
    ensures es[0] !in Contents(FilterUntil(p, c, es[1..], None))
  {
    FilterIsSublist(p, c, es[1..], None);
  }

  lemma NotCountedNext(p: Params, done: seq<Entry>, es: seq<Entry>)
    requires Sorted(done + es) && es != []
    ensures es[0] !in CountedOf(p, done, es[0].key.user)
  {
    NextUser(done, es);
    NotCounted(p, done, es[0]);
  }

  /** A compaction puts out exactly the versions that the rule keeps: neither more of them nor fewer. */
  lemma KeptExactly(p: Params, es: seq<Entry>, e: Entry)
    requires Sorted(es)
    ensures e in Contents(Filter(p, es)) <==> Kept(p, es, e)
  {
    if e in es {
      CursorStart(p);
      assert [] + es == es;
      KeptFrom(p, START, [], es, e);
    } else {
      FilterIsSublist(p, START, es, None);
    }
  }

  // ---------- Stale versions ----------

  lemma {:induction false} DiscardsLater(p: Params, done: seq<Entry>, es: seq<Entry>, user: UserKey)
    requires Sorted(done + es) && HasUser(p, done, user)
    ensures Discards(p, done + es, user) <==> Discards(p, done, user)
    decreases |es|
  {
    hide Sorted, Discards, HasUser;
    if es == [] {
      assert done + es == done;
    } else {
      NextUser(done, es);
      DiscardsMore(p, done, es[0], user);
      assert (done + [es[0]]) + es[1..] == done + es;
      DiscardsLater(p, done + [es[0]], es[1..], user);
    }
  }

  lemma {:induction false} StaleFrom(p: Params, c: Cursor, done: seq<Entry>, es: seq<Entry>, o: Output)
    requires Sorted(done + es) && CursorAt(p, c, done) && o in FilterUntil(p, c, es, None)
    ensures o.stale <==> o.entry.dead || Discards(p, done + es, o.entry.key.user)
    decreases |es|
  {
    hide CursorAt, Discards, Sorted;
    var h, tail := es[0], es[1..];
    assert (done + [h]) + tail == done + es;
    if Passed(p, c, h) {
      PassedKeeps(p, c, done, es);
      StaleFrom(p, c, done + [h], tail, o);
    } else {
      JudgedKeeps(p, c, done, es);
      var (judged, keep) := Judge(p, Enter(c, h), h);
      if o in FilterUntil(p, judged, tail, None) {
        StaleFrom(p, judged, done + [h], tail, o);
      } else {
        assert o in Emit(Enter(c, h), h, keep);
        Entered(p, c, done, es);
        assert h in done + [h] && HasUser(p, done + [h], h.key.user);
        DiscardsLater(p, done + [h], tail, h.key.user);
      }
    }
  }

  /** A version that is put out is counted as stale exactly if it is deleted or expired, or the newest
      version of its key discards what is below. */
  lemma StaleExactly(p: Params, es: seq<Entry>, o: Output)
    requires Sorted(es) && o in Filter(p, es)
    ensures o.stale <==> o.entry.dead || Discards(p, es, o.entry.key.user)
  {
    CursorStart(p);
    assert [] + es == es;
    StaleFrom(p, START, [], es, o);
  }
}
