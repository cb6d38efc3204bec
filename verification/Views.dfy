/** What iteration delivers: for every key the newest version the reader may see, unless that one
    is deleted; in key order, the same in both directions, and the same that point reads find. */
module Views {
  import opened Keys
  import opened Compaction
  import opened Snapshots
  import opened Levels
  import opened Merge
  import opened TxnIterator
  import opened Wrappers

  /** `e` is a live entry and the newest version of its key that the reader may see. */
  ghost predicate Live(o: Options, s: set<Entry>, e: Entry) {
    && e in s && Visible(o, e) && !e.dead
    && forall f | f in s && f.key.user == e.key.user && Visible(o, f) :: f.key.ts <= e.key.ts
  }

  predicate UserAhead(reverse: bool, a: UserKey, b: UserKey) {
    if reverse then b < a else a < b
  }

  predicate ByUser(reverse: bool, out: seq<Entry>) {
    forall i, j | 0 <= i < j < |out| :: UserAhead(reverse, out[i].key.user, out[j].key.user)
  }

  /** Exactly the live entries, each key once, in key order. */
  ghost predicate IsView(o: Options, s: set<Entry>, out: seq<Entry>) {
    ByUser(o.reverse, out) && forall e :: e in out <==> Live(o, s, e)
  }

  lemma SetTail(s: seq<Entry>)
    requires s != []
    ensures Set(s) == {s[0]} + Set(s[1..])
  {
    assert s == [s[0]] + s[1..];
  }

  lemma ByUserCons(reverse: bool, e: Entry, out: seq<Entry>)
    requires ByUser(reverse, out) && forall f | f in out :: UserAhead(reverse, e.key.user, f.key.user)
    ensures ByUser(reverse, [e] + out)
  {
  }

  // ---------- Forward ----------

  /** `last` has been dealt with already. */
  ghost predicate ForwardView(o: Options, last: Option<UserKey>, s: set<Entry>, out: seq<Entry>) {
    ByUser(false, out) && forall e :: e in out <==> Live(o, s, e) && last != Some(e.key.user)
  }

  lemma SkipInvisible(o: Options, s: set<Entry>, x: Entry, e: Entry)
    requires !Visible(o, x)
    ensures Live(o, {x} + s, e) <==> Live(o, s, e)
  {
  }

  lemma {:induction false} ForwardStream(o: Options, last: Option<UserKey>, rest: seq<Entry>)
    requires !o.reverse && !o.allVersions && Strict(false, rest)
    requires last.Some? && rest != [] ==> last.value <= rest[0].key.user
    ensures ForwardView(o, last, Set(rest), Stream(o, last, rest))
    decreases |rest|
  {
    if rest != [] {
      var x, tail := rest[0], rest[1..];
      SetTail(rest);
      StrictTail(false, rest);
      if !Visible(o, x) {
        ForwardStream(o, last, tail);
        forall e ensures Live(o, Set(rest), e) <==> Live(o, Set(tail), e) {
          SkipInvisible(o, Set(tail), x, e);
        }
      } else {
        ForwardStream(o, Some(x.key.user), tail);
        ForwardStream(o, last, tail);
        var out := Stream(o, Some(x.key.user), tail);
        forall e | e in out ensures x.key.user < e.key.user {
          assert Live(o, Set(tail), e);
        }
        ByUserCons(false, x, out);
        forall e | last != Some(x.key.user)
          ensures Live(o, Set(rest), e) <==> (e == x && !x.dead) || (Live(o, Set(tail), e) && e.key.user != x.key.user)
        {
          NewestFirst(o, Set(tail), x, e);
        }
      }
    }
  }

  lemma NewestFirst(o: Options, s: set<Entry>, x: Entry, e: Entry)
    requires Visible(o, x) && forall f | f in s && f.key.user == x.key.user :: f.key.ts < x.key.ts
    ensures Live(o, {x} + s, e) <==> (e == x && !x.dead) || (Live(o, s, e) && e.key.user != x.key.user)
  {
  }

  // ---------- Reverse ----------

  lemma NewestLast(o: Options, s: set<Entry>, x: Entry, e: Entry)
    requires Visible(o, x) && forall f | f in s && f.key.user == x.key.user :: x.key.ts < f.key.ts
    ensures e != x ==> (Live(o, {x} + s, e) <==> Live(o, s, e))
    ensures Live(o, {x} + s, x) <==> !x.dead && forall f | f in s && f.key.user == x.key.user :: !Visible(o, f)
  {
  }

  /** The newer version that Fill moves on to is a candidate itself. */
  lemma NewerIsVisible(o: Options, rest: seq<Entry>)
    requires o.reverse && Strict(true, rest) && rest != [] && Visible(o, rest[0])
    ensures Newer(o, rest) <==> exists f :: f in rest[1..] && f.key.user == rest[0].key.user && Visible(o, f)
    ensures Newer(o, rest) ==> Visible(o, rest[1])
  {
    StrictTail(true, rest);
    if Newer(o, rest) {
      assert rest[1] in rest[1..];
    }
    if f :| f in rest[1..] && f.key.user == rest[0].key.user && Visible(o, f) {
      var j :| 1 <= j < |rest| && rest[j] == f;
      assert j > 1 ==> Merge.Ahead(true, rest[1].key, rest[j].key);
      assert Merge.Ahead(true, rest[0].key, rest[1].key);
    }
  }

  lemma {:induction false} ReverseStream(o: Options, last: Option<UserKey>, rest: seq<Entry>)
    requires o.reverse && !o.allVersions && Strict(true, rest)
    ensures IsView(o, Set(rest), Stream(o, last, rest))
    decreases |rest|
  {
    if rest != [] {
      var x, tail := rest[0], rest[1..];
      SetTail(rest);
      StrictTail(true, rest);
      ReverseStream(o, last, tail);
      var out := Stream(o, last, tail);
      if !Visible(o, x) {
        forall e ensures Live(o, Set(rest), e) <==> Live(o, Set(tail), e) {
          SkipInvisible(o, Set(tail), x, e);
        }
      } else {
        NewerIsVisible(o, rest);
        forall e ensures Live(o, Set(rest), e) <==> (e == x && !x.dead && !Newer(o, rest)) || Live(o, Set(tail), e) {
          NewestLast(o, Set(tail), x, e);
        }
        if !x.dead && !Newer(o, rest) {
          forall e | e in out ensures e.key.user < x.key.user {
            assert Live(o, Set(tail), e);
          }
          ByUserCons(true, x, out);
        }
      }
    }
  }

  // ---------- Main results ----------

  /** A pass over the entries delivers exactly the live ones in key order, in either direction. */
  lemma StreamIsView(o: Options, entries: seq<Entry>)
    requires !o.allVersions && Strict(o.reverse, entries)
    ensures IsView(o, Set(entries), Stream(o, None, entries))
  {
    if o.reverse {
      ReverseStream(o, None, entries);
    } else {
      ForwardStream(o, None, entries);
    }
  }

  /** With all versions asked for, every visible one comes out, deleted or not. */
  lemma {:induction false} AllVersionsStream(o: Options, last: Option<UserKey>, rest: seq<Entry>)
    requires o.allVersions && Strict(o.reverse, rest)
    ensures Strict(o.reverse, Stream(o, last, rest))
    ensures forall e :: e in Stream(o, last, rest) <==> e in rest && Visible(o, e)
  {
    if rest != [] {
      StrictTail(o.reverse, rest);
      AllVersionsStream(o, last, rest[1..]);
      assert rest == [rest[0]] + rest[1..];
      if Visible(o, rest[0]) {
        StrictCons(o.reverse, rest[0], Stream(o, last, rest[1..]));
      }
    }
  }

  /** There is only one such list. */
  lemma ViewUnique(o: Options, s: set<Entry>, a: seq<Entry>, b: seq<Entry>)
    requires IsView(o, s, a) && IsView(o, s, b)
    ensures a == b
  {
    ByUserUnique(o.reverse, a, b);
  }

  lemma ByUserUnique(reverse: bool, a: seq<Entry>, b: seq<Entry>)
    requires ByUser(reverse, a) && ByUser(reverse, b) && forall e :: e in a <==> e in b
    ensures a == b
  {
    ByUserStrict(reverse, a);
    ByUserStrict(reverse, b);
    StrictUnique(reverse, a, b);
  }

  lemma ByUserStrict(reverse: bool, a: seq<Entry>)
    requires ByUser(reverse, a)
    ensures Strict(reverse, a)
  {
  }

  /** Reverse iteration delivers the reversed list. */
  lemma ReverseIsReversed(o: Options, entries: seq<Entry>)
    requires !o.reverse && !o.allVersions && Strict(false, entries)
    ensures Stream(o.(reverse := true), None, Backwards(entries)) == Backwards(Stream(o, None, entries))
  {
    var r, out := o.(reverse := true), Stream(o, None, entries);
    BackwardsHas(entries);
    BackwardsHas(out);
    StreamIsView(o, entries);
    StreamIsView(r, Backwards(entries));
    assert Set(Backwards(entries)) == Set(entries);
    forall e ensures Live(r, Set(entries), e) <==> Live(o, Set(entries), e) {
    }
    ByUserUnique(true, Stream(r, None, Backwards(entries)), Backwards(out));
  }

  /** The newest version at or below the read timestamp, as the point lookup finds it, is
      delivered exactly when it is not deleted; and nothing else is delivered for its key. */
  lemma IterationAgreesWithGet(o: Options, entries: seq<Entry>, user: UserKey, found: Option<Entry>)
    requires !o.allVersions && o.sinceTs == 0 && Strict(o.reverse, entries) && !o.hidden(user)
    requires Finds(Set(entries), user, o.readTs, found)
    ensures forall e: Entry | e.key.user == user :: e in Stream(o, None, entries) <==> found == Some(e) && !e.dead
  {
    StreamIsView(o, entries);
    forall e: Entry | e.key.user == user ensures Live(o, Set(entries), e) <==> found == Some(e) && !e.dead {
      if Live(o, Set(entries), e) {
        assert found.Some? && found.value.key == e.key;
        StrictKeys(o.reverse, entries, found.value, e);
      }
    }
  }

  lemma StrictAt(reverse: bool, s: seq<Entry>, i: nat, j: nat)
    requires Strict(reverse, s) && i < j < |s|
    ensures s[i].key != s[j].key
  {
  }

  lemma StrictKeys(reverse: bool, s: seq<Entry>, a: Entry, b: Entry)
    requires Strict(reverse, s) && a in s && b in s && a.key == b.key
    ensures a == b
  {
    hide Strict;
    var i :| 0 <= i < |s| && s[i] == a;
    var j :| 0 <= j < |s| && s[j] == b;
    if i < j {
      StrictAt(reverse, s, i, j);
    } else if j < i {
      StrictAt(reverse, s, j, i);
    }
  }

  /** A transaction's own writes, which are merged in first and stamped with the read timestamp,
      shadow what is stored. */
  lemma PendingShadows(o: Options, pending: seq<Entry>, stored: seq<Entry>, e: Entry)
    requires !o.allVersions && o.sinceTs < o.readTs && Strict(o.reverse, pending) && Strict(o.reverse, stored)
    requires forall p | p in pending :: p.key.ts == o.readTs
    ensures e in Stream(o, None, Merged(o.reverse, pending, stored)) <==>
            if exists p :: p in pending && p.key.user == e.key.user then e in pending && !e.dead && !o.hidden(e.key.user)
            else Live(o, Set(stored), e)
  {
    MergedHas(o.reverse, pending, stored);
    MergedStrict(o.reverse, pending, stored);
    var all := Merged(o.reverse, pending, stored);
    StreamIsView(o, all);
    if p :| p in pending && p.key.user == e.key.user {
      assert Visible(o, p) <==> !o.hidden(e.key.user);
      assert p in Set(all);
      if Live(o, Set(all), e) {
        assert e.key == p.key;
        StrictKeys(o.reverse, all, p, e);
      }
      if e in pending {
        StrictKeys(o.reverse, pending, p, e);
      }
    } else {
      forall f: Entry | f.key.user == e.key.user ensures f in Set(all) <==> f in Set(stored) {
        assert !HasKey(pending, f.key);
      }
    }
  }

  /** Seeking a key and seeking its newest readable version find the same live entries. */
  lemma SeekView(o: Options, entries: seq<Entry>, user: UserKey, e: Entry)
    requires !o.allVersions && Strict(o.reverse, entries)
    ensures e in Stream(o, None, From(o.reverse, entries, InternalKey(user, if o.reverse then 0 else o.readTs))) <==>
            Live(o, Set(entries), e) && (if o.reverse then e.key.user <= user else user <= e.key.user)
  {
    var key := InternalKey(user, if o.reverse then 0 else o.readTs);
    var from := From(o.reverse, entries, key);
    FromHas(o.reverse, entries, key);
    StreamIsView(o, from);
    forall f | f in entries && Visible(o, f)
      ensures f in from <==> if o.reverse then f.key.user <= user else user <= f.key.user
    {
    }
  }
}
