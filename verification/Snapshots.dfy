/** What a compaction's filter guarantees: no permitted snapshot sees a difference, and splitting
    the work changes nothing. */
module Snapshots {
  import opened Keys
  import opened Compaction
  import opened Wrappers

  ghost function Contents(out: seq<Output>): set<Entry> {
    set o | o in out :: o.entry
  }

  ghost function Set(es: seq<Entry>): set<Entry> {
    set e | e in es
  }

  /** `e` is the newest version of `user` at or below `ts`. */
  ghost predicate Newest(s: set<Entry>, user: UserKey, ts: nat, e: Entry) {
    && e in s && e.key.user == user && e.key.ts <= ts
    && forall f | f in s && f.key.user == user && f.key.ts <= ts :: f.key.ts <= e.key.ts
  }

  ghost predicate Absent(s: set<Entry>, user: UserKey, ts: nat) {
    forall e | e in s && e.key.user == user :: ts < e.key.ts
  }

  /** The answer of a read at `ts`: nothing when the newest version is deleted or expired. */
  ghost predicate Reads(s: set<Entry>, user: UserKey, ts: nat, answer: Option<Entry>) {
    if answer.Some? then Newest(s, user, ts, answer.value) && !answer.value.dead
    else Absent(s, user, ts) || exists e :: Newest(s, user, ts, e) && e.dead
  }

  // ---------- The filter ----------

  lemma {:induction false} FilterIsSublist(p: Params, c: Cursor, es: seq<Entry>, right: Option<InternalKey>)
    requires Sorted(es)
    ensures Sorted(Entries(FilterUntil(p, c, es, right)))
    ensures forall o | o in FilterUntil(p, c, es, right) :: o.entry in es
    decreases |es|
  {
    if es != [] {
      if Passed(p, c, es[0]) {
        FilterIsSublist(p, c, es[1..], right);
      } else if !Stops(c, es[0], right) {
        var entered := Enter(c, es[0]);
        var (judged, keep) := Judge(p, entered, es[0]);
        FilterIsSublist(p, judged, es[1..], right);
        var rest := FilterUntil(p, judged, es[1..], right);
        forall e | e in Entries(rest) ensures Before(es[0].key, e.key) {
          var i :| 0 <= i < |rest| && rest[i].entry == e;
          assert rest[i] in rest;
          var j :| 1 <= j < |es| && es[j] == e;
        }
      }
    }
  }

  /** While a key is being skipped, nothing of it comes out. */
  lemma {:induction false} SkippedStaysOut(p: Params, c: Cursor, es: seq<Entry>, user: UserKey)
    requires Sorted(es) && (forall e | e in es :: user <= e.key.user)
    requires c.skipKey == Some(user) || forall e | e in es :: e.key.user != user
    ensures forall o | o in FilterUntil(p, c, es, None) :: o.entry.key.user != user
    decreases |es|
  {
    if es != [] {
      if Passed(p, c, es[0]) {
        SkippedStaysOut(p, c, es[1..], user);
      } else {
        assert es[0].key.user != user;
        forall e | e in es[1..] ensures e.key.user != user {
          var j :| 1 <= j < |es| && es[j] == e;
          assert Before(es[0].key, es[j].key);
        }
        SkippedStaysOut(p, Judge(p, Enter(c, es[0]), es[0]).0, es[1..], user);
      }
    }
  }

  /** Why a version may be removed: a newer version of the key, at or below the discard
      timestamp, survives; or it and everything newer down to it is dead and nothing lies below. */
  ghost predicate Shadows(p: Params, out: set<Entry>, s: Entry, e: Entry) {
    && s.key.user == e.key.user && e.key.ts <= s.key.ts <= p.discardTs && !s.merge
    && if s in out then e.key.ts < s.key.ts
       else s.dead && !p.hasOverlap && Absent(out, e.key.user, s.key.ts)
  }

  /** The first entry of a key that is skipped from here on, or is itself dropped. */
  lemma RemovedHere(p: Params, c: Cursor, es: seq<Entry>, e: Entry)
    requires Sorted(es) && es != [] && e in es && !Passed(p, c, es[0])
    requires e !in Contents(FilterUntil(p, c, es, None))
    requires Judge(p, Enter(c, es[0]), es[0]).0.skipKey == Some(e.key.user)
    ensures Shadows(p, Contents(FilterUntil(p, c, es, None)), es[0], e)
  {
    var h, tail := es[0], es[1..];
    var (judged, keep) := Judge(p, Enter(c, h), h);
    var rest := FilterUntil(p, judged, tail, None);
    var out := FilterUntil(p, c, es, None);
    assert out == Emit(Enter(c, h), h, keep) + rest;
    assert keep <==> h in Contents(Emit(Enter(c, h), h, keep));
    assert Contents(out) == Contents(Emit(Enter(c, h), h, keep)) + Contents(rest);
    assert h.key.user == e.key.user;
    forall f | f in tail ensures h.key.user <= f.key.user {
      var j :| 1 <= j < |es| && es[j] == f;
      assert Before(es[0].key, es[j].key);
    }
    SkippedStaysOut(p, judged, tail, h.key.user);
    if h != e {
      var j :| 1 <= j < |es| && es[j] == e;
      assert Before(es[0].key, es[j].key);
    }
  }

  /** What shadows an entry of the tail shadows it in the whole. */
  lemma ShadowsLater(p: Params, c: Cursor, es: seq<Entry>, s: Entry, e: Entry)
    requires Sorted(es) && es != [] && !Passed(p, c, es[0]) && s in es[1..]
    requires Shadows(p, Contents(FilterUntil(p, Judge(p, Enter(c, es[0]), es[0]).0, es[1..], None)), s, e)
    ensures Shadows(p, Contents(FilterUntil(p, c, es, None)), s, e)
  {
    var (judged, keep) := Judge(p, Enter(c, es[0]), es[0]);
    var rest := FilterUntil(p, judged, es[1..], None);
    assert FilterUntil(p, c, es, None) == Emit(Enter(c, es[0]), es[0], keep) + rest;
    assert Contents(FilterUntil(p, c, es, None)) == Contents(Emit(Enter(c, es[0]), es[0], keep)) + Contents(rest);
    var j :| 1 <= j < |es| && es[j] == s;
    assert Before(es[0].key, es[j].key);
  }

  lemma {:induction false} RemovedFrom(p: Params, c: Cursor, es: seq<Entry>, e: Entry)
    requires Sorted(es) && e in es && !p.dropped(e.key)
    requires e !in Contents(FilterUntil(p, c, es, None))
    ensures c.skipKey == Some(e.key.user) ||
            exists s :: s in es && Shadows(p, Contents(FilterUntil(p, c, es, None)), s, e)
    decreases |es|
  {
    var h, tail := es[0], es[1..];
    var out := FilterUntil(p, c, es, None);
    if Passed(p, c, h) {
      if h != e {
        RemovedFrom(p, c, tail, e);
      }
    } else {
      var (judged, keep) := Judge(p, Enter(c, h), h);
      if judged.skipKey == Some(e.key.user) {
        RemovedHere(p, c, es, e);
      } else {
        var rest := FilterUntil(p, judged, tail, None);
        assert out == Emit(Enter(c, h), h, keep) + rest;
        assert keep <==> h in Contents(Emit(Enter(c, h), h, keep));
        assert h != e;
        RemovedFrom(p, judged, tail, e);
        var s :| s in tail && Shadows(p, Contents(rest), s, e);
        ShadowsLater(p, c, es, s, e);
      }
    }
  }

  /** The one fact the rest of the engine needs about the filter. */
  lemma Removed(p: Params, es: seq<Entry>, e: Entry)
    requires Sorted(es) && e in es && !p.dropped(e.key) && e !in Contents(Filter(p, es))
    ensures exists s :: s in es && Shadows(p, Contents(Filter(p, es)), s, e)
  {
    RemovedFrom(p, START, es, e);
  }

  ghost predicate NothingDropped(p: Params, user: UserKey) {
    forall ts: nat :: !p.dropped(InternalKey(user, ts))
  }

  /** At every timestamp a running transaction may read, the newest version of a key survives,
      unless it is dead and nothing of the key remains at or below that timestamp. */
  lemma NewestSurvives(p: Params, es: seq<Entry>, user: UserKey, ts: nat, e: Entry)
    requires Sorted(es) && p.discardTs <= ts && NothingDropped(p, user)
    requires Newest(Set(es), user, ts, e)
    ensures var out := Contents(Filter(p, es));
            Newest(out, user, ts, e) ||
            (e.dead && !e.merge && e.key.ts <= p.discardTs && !p.hasOverlap && Absent(out, user, ts))
  {
    var out := Contents(Filter(p, es));
    FilterIsSublist(p, START, es, None);
    assert out <= Set(es);
    if e !in out {
      assert !p.dropped(InternalKey(user, e.key.ts));
      Removed(p, es, e);
      var s :| s in es && Shadows(p, out, s, e);
      SameVersion(es, s, e);
      forall f | f in out && f.key.user == user ensures ts < f.key.ts {
        assert f in Set(es);
      }
    }
  }

  /** With nothing overlapping, a dead version that is the newest at the discard timestamp goes, and
      all older ones with it. */
  lemma {:induction false} DeadGoes(p: Params, c: Cursor, es: seq<Entry>, d: Entry)
    requires Sorted(es) && !p.hasOverlap && (forall k: InternalKey :: !p.dropped(k))
    requires Newest(Set(es), d.key.user, p.discardTs, d) && d.dead && !d.merge
    ensures forall o | o in FilterUntil(p, c, es, None) && o.entry.key.user == d.key.user :: p.discardTs < o.entry.key.ts
    decreases |es|
  {
    var h, tail := es[0], es[1..];
    var user := d.key.user;
    assert d in es;
    if h == d {
      forall f | f in tail ensures user <= f.key.user {
        var j :| 1 <= j < |es| && es[j] == f;
        assert Before(es[0].key, es[j].key);
      }
      SkippedStaysOut(p, if Passed(p, c, h) then c else Judge(p, Enter(c, h), h).0, tail, user);
    } else {
      assert Set(tail) <= Set(es) && d in tail;
      DeadGoes(p, if Passed(p, c, h) then c else Judge(p, Enter(c, h), h).0, tail, d);
      var j :| 1 <= j < |es| && es[j] == d;
      assert Before(es[0].key, es[j].key);
    }
  }

  lemma SameVersion(es: seq<Entry>, a: Entry, b: Entry)
    requires Sorted(es) && a in es && b in es && a.key == b.key
    ensures a == b
  {
    var i :| 0 <= i < |es| && es[i] == a;
    var j :| 0 <= j < |es| && es[j] == b;
    if i < j {
      assert Before(es[i].key, es[j].key);
    }
  }

  /** Snapshot preservation: for any number of versions to keep and any discard and merge bits,
      no read at or above the discard timestamp changes its answer. */
  lemma SnapshotsPreserved(p: Params, es: seq<Entry>, user: UserKey, ts: nat, answer: Option<Entry>)
    requires Sorted(es) && p.discardTs <= ts && NothingDropped(p, user)
    ensures Reads(Set(es), user, ts, answer) <==> Reads(Contents(Filter(p, es)), user, ts, answer)
  {
    var all, out := Set(es), Contents(Filter(p, es));
    FilterIsSublist(p, START, es, None);
    assert out <= all;
    if Absent(all, user, ts) {
      assert Absent(out, user, ts);
    } else {
      NewestExists(all, user, ts);
      var e :| Newest(all, user, ts, e);
      NewestSurvives(p, es, user, ts, e);
      forall f | Newest(all, user, ts, f) ensures f == e {
        SameVersion(es, e, f);
      }
      forall f | Newest(out, user, ts, f) && Newest(out, user, ts, e) ensures f == e {
        SameVersion(es, e, f);
      }
    }
  }

  lemma {:induction false} NewestExists(s: set<Entry>, user: UserKey, ts: nat)
    requires !Absent(s, user, ts)
    ensures exists e :: Newest(s, user, ts, e)
    decreases |s|
  {
    var x :| x in s && x.key.user == user && x.key.ts <= ts;
    var rest := s - {x};
    if Absent(rest, user, ts) {
      assert Newest(s, user, ts, x);
    } else {
      NewestExists(rest, user, ts);
      var y :| Newest(rest, user, ts, y);
      assert Newest(s, user, ts, if x.key.ts <= y.key.ts then y else x);
    }
  }

  // ---------- Splits ----------

  /** addSplits cuts the key range after the largest user key of every width-th bottom table.
      A boundary key is written at timestamp 0, below every version of it. */
  datatype Split = Split(left: InternalKey, right: Option<InternalKey>)

  function Boundary(user: UserKey): InternalKey {
    InternalKey(user, 0)
  }

  function SplitsAt(left: InternalKey, bounds: seq<UserKey>): (splits: seq<Split>)
    ensures |splits| == |bounds| + 1
    decreases |bounds|
  {
    if bounds == [] then [Split(left, None)]
    else [Split(left, Some(Boundary(bounds[0])))] + SplitsAt(Boundary(bounds[0]), bounds[1..])
  }

  lemma {:induction false} SplitsAtAppend(left: InternalKey, bounds: seq<UserKey>, b: UserKey)
    ensures SplitsAt(left, bounds + [b]) ==
            var s := SplitsAt(left, bounds);
            s[..|bounds|] + [Split(s[|bounds|].left, Some(Boundary(b))), Split(Boundary(b), None)]
    ensures SplitsAt(left, bounds)[|bounds|] ==
            Split(if bounds == [] then left else Boundary(bounds[|bounds| - 1]), None)
    decreases |bounds|
  {
    if bounds == [] {
      assert [b][1..] == [];
    } else {
      SplitsAtAppend(Boundary(bounds[0]), bounds[1..], b);
      assert (bounds + [b])[1..] == bounds[1..] + [b];
    }
  }

  predicate Ascending(bounds: seq<UserKey>) {
    forall i, j | 0 <= i < j < |bounds| :: bounds[i] < bounds[j]
  }

  lemma QuotientIs(x: int, width: int, q: int, r: int)
    requires x == q * width + r && 0 <= r < width
    ensures x / width == q
  {
    var d := x / width - q;
    assert x == (x / width) * width + x % width;
    assert d * width == (x / width) * width - q * width;
    if d >= 1 {
      Multiple(d, width);
    } else if d <= -1 {
      Multiple(-d, width);
    }
  }

  lemma Multiple(n: int, width: int)
    requires n >= 1 && width > 0
    ensures n * width >= width
  {
  }

  lemma NextRound(i: nat, width: nat)
    requires width > 0
    ensures (i + 1) / width == i / width + if i % width == width - 1 then 1 else 0
  {
    var q, r := i / width, i % width;
    if r == width - 1 {
      assert (q + 1) * width == q * width + width;
      QuotientIs(i + 1, width, q + 1, 0);
    } else {
      QuotientIs(i + 1, width, q, r + 1);
    }
  }

  lemma EndOfRound(i: nat, width: nat)
    requires width > 0 && i % width == width - 1
    ensures i == (i / width + 1) * width - 1
  {
  }

  /** The splits for `n` bottom tables are this many tables wide. */
  function SplitWidth(n: nat): (width: nat)
    ensures width >= 3 && n <= 5 * width
  {
    if (n + 4) / 5 < 3 then 3 else (n + 4) / 5
  }

  /** The bounds are the biggest keys of the last table of each full round, the last table of all
      excepted. */
  ghost predicate Picked(bounds: seq<UserKey>, biggest: seq<UserKey>, upTo: nat, width: nat)
    requires width > 0 && upTo <= |biggest|
  {
    && |bounds| == upTo / width
    && forall j | 0 <= j < |bounds| :: 0 <= (j + 1) * width - 1 < upTo && bounds[j] == biggest[(j + 1) * width - 1]
  }

  lemma PickedMore(bounds: seq<UserKey>, biggest: seq<UserKey>, i: nat, width: nat)
    requires width > 0 && i < |biggest| && Picked(bounds, biggest, i, width)
    ensures Picked(if i % width == width - 1 then bounds + [biggest[i]] else bounds, biggest, i + 1, width)
  {
    NextRound(i, width);
    if i % width == width - 1 {
      EndOfRound(i, width);
    }
  }

  lemma AtMostFourRounds(n: nat, width: nat)
    requires width > 0 && n < 5 * width
    ensures n / width <= 4
  {
  }

  lemma GrowAscending(biggest: seq<UserKey>, i: nat, bounds: seq<UserKey>)
    requires i < |biggest| && Ascending(biggest) && Ascending(bounds)
    requires forall b | b in bounds :: b in biggest[..i]
    ensures Ascending(bounds + [biggest[i]])
    ensures forall b | b in bounds + [biggest[i]] :: b in biggest[..i + 1]
  {
    forall k | 0 <= k < |bounds| ensures bounds[k] < biggest[i] {
      assert bounds[k] in bounds;
      var j :| 0 <= j < i && biggest[j] == bounds[k];
    }
    assert biggest[..i + 1] == biggest[..i] + [biggest[i]];
  }

  /** `biggest` lists the largest user keys of the bottom tables, which do not overlap. */
  method AddSplits(biggest: seq<UserKey>, left: InternalKey) returns (splits: seq<Split>, ghost bounds: seq<UserKey>)
    requires Ascending(biggest)
    ensures biggest == [] ==> splits == []
    ensures biggest != [] ==> splits == SplitsAt(left, bounds) && Ascending(bounds)
    ensures biggest != [] ==> Picked(bounds, biggest, |biggest| - 1, SplitWidth(|biggest|))
    ensures |splits| <= 5
  {
    hide Picked;
    var width := (|biggest| + 4) / 5;
    if width < 3 {
      width := 3;
    }
    splits, bounds := [], [];
    var from := left;
    NonePicked(biggest, width);
    for i := 0 to |biggest|
      invariant (i == 0 ==> splits == []) && (i == |biggest| ==> biggest == [])
      invariant Ascending(bounds) && (forall b | b in bounds :: b in biggest[..i])
      invariant SplitsAt(left, bounds) == splits + [Split(from, None)]
      invariant |splits| == |bounds| && Picked(bounds, biggest, i, width)
    {
      if i == |biggest| - 1 {
        splits := splits + [Split(from, None)];
        FewPicked(bounds, biggest, i, width);
        return;
      }
      PickedMore(bounds, biggest, i, width);
      assert biggest[..i + 1] == biggest[..i] + [biggest[i]];
      if i % width == width - 1 {
        SplitsAtAppend(left, bounds, biggest[i]);
        GrowAscending(biggest, i, bounds);
        splits := splits + [Split(from, Some(Boundary(biggest[i])))];
        from := Boundary(biggest[i]);
        bounds := bounds + [biggest[i]];
      }
    }
  }

  lemma NonePicked(biggest: seq<UserKey>, width: nat)
    requires width > 0
    ensures Picked([], biggest, 0, width)
  {
  }

  lemma FewPicked(bounds: seq<UserKey>, biggest: seq<UserKey>, i: nat, width: nat)
    requires width > 0 && i < |biggest| && Picked(bounds, biggest, i, width) && i < 5 * width
    ensures |bounds| <= 4
  {
    AtMostFourRounds(i, width);
  }

  function SeekTo(es: seq<Entry>, left: InternalKey): seq<Entry> {
    if es != [] && Before(es[0].key, left) then SeekTo(es[1..], left) else es
  }

  /** What the subcompactions of the splits put out, one after the other. */
  function RunSplits(p: Params, es: seq<Entry>, splits: seq<Split>): seq<Output> {
    if splits == [] then []
    else FilterUntil(p, START, SeekTo(es, splits[0].left), splits[0].right) + RunSplits(p, es, splits[1..])
  }

  lemma {:induction false} CursorForgotten(p: Params, c: Cursor, es: seq<Entry>, right: Option<InternalKey>)
    requires forall e | e in es :: c.lastKey != Some(e.key.user) && c.skipKey != Some(e.key.user)
    ensures FilterUntil(p, c, es, right) == FilterUntil(p, START, es, right)
    decreases |es|
  {
    if es != [] {
      if p.dropped(es[0].key) {
        CursorForgotten(p, c, es[1..], right);
      } else {
        assert Enter(c, es[0]) == Enter(START, es[0]);
      }
    }
  }

  /** The filter works key by key: it distributes over a cut between user keys. */
  lemma {:induction false} FilterSplits(p: Params, c: Cursor, a: seq<Entry>, b: seq<Entry>, cut: UserKey)
    requires (forall e | e in a :: e.key.user <= cut) && (forall e | e in b :: cut < e.key.user)
    requires c.lastKey.Some? ==> c.lastKey.value <= cut
    requires c.skipKey.Some? ==> c.skipKey.value <= cut
    ensures FilterUntil(p, c, a + b, None) == FilterUntil(p, c, a, None) + FilterUntil(p, START, b, None)
    decreases |a|
  {
    if a == [] {
      assert a + b == b;
      CursorForgotten(p, c, b, None);
    } else {
      assert (a + b)[1..] == a[1..] + b;
      if Passed(p, c, a[0]) {
        FilterSplits(p, c, a[1..], b, cut);
      } else {
        var entered := Enter(c, a[0]);
        var (judged, keep) := Judge(p, entered, a[0]);
        FilterSplits(p, judged, a[1..], b, cut);
      }
    }
  }

  /** With a right end at timestamp 0 the loop takes exactly the keys up to the boundary. */
  lemma {:induction false} RangeStops(p: Params, c: Cursor, a: seq<Entry>, b: seq<Entry>, cut: UserKey)
    requires forall e | e in a :: Before(e.key, Boundary(cut))
    requires forall e | e in b :: cut < e.key.user
    requires c.lastKey.Some? ==> c.lastKey.value <= cut
    ensures FilterUntil(p, c, a + b, Some(Boundary(cut))) == FilterUntil(p, c, a, None)
    decreases |a|
  {
    if a == [] {
      assert a + b == b;
      NothingRight(p, c, b, Boundary(cut));
    } else {
      assert (a + b)[1..] == a[1..] + b;
      if Passed(p, c, a[0]) {
        RangeStops(p, c, a[1..], b, cut);
      } else {
        assert Before(a[0].key, Boundary(cut));
        RangeStops(p, Judge(p, Enter(c, a[0]), a[0]).0, a[1..], b, cut);
      }
    }
  }

  lemma {:induction false} SeekAfter(a: seq<Entry>, b: seq<Entry>, left: InternalKey)
    requires (forall e | e in a :: Before(e.key, left)) && (forall e | e in b :: !Before(e.key, left))
    ensures SeekTo(a + b, left) == b
  {
    if a == [] {
      assert a + b == b;
    } else {
      assert (a + b)[1..] == a[1..] + b;
      SeekAfter(a[1..], b, left);
    }
  }

  lemma {:induction false} CutAt(es: seq<Entry>, cut: UserKey) returns (a: seq<Entry>, b: seq<Entry>)
    requires Sorted(es)
    ensures es == a + b && (forall e | e in a :: e.key.user <= cut) && (forall e | e in b :: cut < e.key.user)
  {
    if es == [] || es[0].key.user > cut {
      a, b := [], es;
      forall e | e in b ensures cut < e.key.user {
        var j :| 0 <= j < |es| && es[j] == e;
      }
    } else {
      a, b := CutAt(es[1..], cut);
      a := [es[0]] + a;
    }
  }

  /** The cut of a stretch that ends at the user key `cut`: its version 0 is at the boundary itself. */
  lemma VersionZeroLast(a: seq<Entry>, cut: UserKey) returns (front: seq<Entry>, zero: seq<Entry>)
    requires Sorted(a) && forall e | e in a :: e.key.user <= cut
    ensures a == front + zero && (zero == [] || (|zero| == 1 && zero[0].key == Boundary(cut)))
    ensures forall e | e in front :: Before(e.key, Boundary(cut))
  {
    if a != [] && a[|a| - 1].key == Boundary(cut) {
      front, zero := a[..|a| - 1], [a[|a| - 1]];
    } else {
      front, zero := a, [];
    }
  }

  /** Some version of the key before the boundary is not under a dropped prefix. */
  ghost predicate Seen(p: Params, front: seq<Entry>, cut: UserKey) {
    exists f :: f in front && f.key.user == cut && !p.dropped(f.key)
  }

  lemma PartsSorted(a: seq<Entry>, b: seq<Entry>)
    requires Sorted(a + b)
    ensures Sorted(a) && Sorted(b)
  {
    hide Before;
    assert forall i | 0 <= i < |b| :: b[i] == (a + b)[|a| + i];
    assert forall i | 0 <= i < |a| :: a[i] == (a + b)[i];
  }

  lemma JudgedKeys(p: Params, c: Cursor, e: Entry)
    ensures var next := Judge(p, Enter(c, e), e).0;
            next.lastKey == Some(e.key.user) && (next.skipKey == None || next.skipKey == Some(e.key.user))
  {
  }

  /** The loop takes a version 0 at its right end only behind another version of that key. */
  lemma {:induction false} ZeroAtRight(p: Params, c: Cursor, front: seq<Entry>, zero: Entry, b: seq<Entry>, cut: UserKey)
    requires (forall e | e in front :: Before(e.key, Boundary(cut))) && zero.key == Boundary(cut)
    requires (forall e | e in b :: cut < e.key.user) && (c.lastKey.Some? ==> c.lastKey.value <= cut)
    requires c.lastKey != Some(cut) ==> c.skipKey != Some(cut)
    requires Sorted(front) && (c.lastKey.Some? ==> forall e | e in front :: c.lastKey.value <= e.key.user)
    ensures c.lastKey == Some(cut) || Seen(p, front, cut) ==>
              FilterUntil(p, c, front + ([zero] + b), Some(Boundary(cut))) == FilterUntil(p, c, front + [zero], None)
    ensures !(c.lastKey == Some(cut) || Seen(p, front, cut)) ==>
              && FilterUntil(p, c, front + ([zero] + b), Some(Boundary(cut))) == FilterUntil(p, c, front, None)
              && FilterUntil(p, c, front + [zero], None) == FilterUntil(p, c, front, None) + FilterUntil(p, START, [zero], None)
    decreases |front|
  {
    if front == [] {
      assert front + ([zero] + b) == [zero] + b && front + [zero] == [zero] && ([zero] + b)[1..] == b;
      NothingRight(p, c, b, Boundary(cut));
      NothingRight(p, Judge(p, Enter(c, zero), zero).0, b, Boundary(cut));
    } else {
      hide Judge, Enter, Emit;
      var e := front[0];
      assert (front + ([zero] + b))[1..] == front[1..] + ([zero] + b) && (front + [zero])[1..] == front[1..] + [zero];
      SeenNext(p, front, cut);
      FirstLeast(front);
      JudgedKeys(p, c, e);
      ZeroAtRight(p, if Passed(p, c, e) then c else Judge(p, Enter(c, e), e).0, front[1..], zero, b, cut);
    }
  }

  lemma SeenNext(p: Params, front: seq<Entry>, cut: UserKey)
    requires front != []
    ensures Seen(p, front, cut) <==> Seen(p, front[1..], cut) || (front[0].key.user == cut && !p.dropped(front[0].key))
  {
    assert forall f :: f in front <==> f == front[0] || f in front[1..];
  }

  lemma FirstLeast(front: seq<Entry>)
    requires Sorted(front) && front != []
    ensures Sorted(front[1..]) && forall e | e in front[1..] :: front[0].key.user <= e.key.user
  {
    PartsSorted([front[0]], front[1..]);
    assert [front[0]] + front[1..] == front;
    forall e | e in front[1..] ensures front[0].key.user <= e.key.user {
      var j :| 1 <= j < |front| && front[j] == e;
    }
  }

  /** A version 0 of the key is put out though a newer version comes before it. */
  ghost predicate Repeated(p: Params, es: seq<Entry>, cut: UserKey) {
    exists zero :: zero in es && zero.key == Boundary(cut) && !p.dropped(zero.key) && Judge(p, Enter(START, zero), zero).1
                   && exists f :: f in es && f.key.user == cut && f.key.ts > 0 && !p.dropped(f.key)
  }

  /** One split: what the loop does up to the boundary, where `a` holds the keys up to `cut`. */
  lemma OneSplit(p: Params, a: seq<Entry>, b: seq<Entry>, cut: UserKey, zero: seq<Entry>, front: seq<Entry>)
    requires Sorted(a) && (forall e | e in a :: e.key.user <= cut) && forall e | e in b :: cut < e.key.user
    requires a == front + zero && (zero == [] || (|zero| == 1 && zero[0].key == Boundary(cut)))
    requires forall e | e in front :: Before(e.key, Boundary(cut))
    ensures var part, again := FilterUntil(p, START, a + b, Some(Boundary(cut))), FilterUntil(p, START, zero, None);
            if Repeated(p, a, cut) then |again| > 0 && part == FilterUntil(p, START, a, None)
            else part + again == FilterUntil(p, START, a, None)
  {
    if zero == [] {
      assert forall e | e in a :: e in front;
      RangeStops(p, START, a, b, cut);
    } else {
      var z := zero[0];
      assert zero == [z] && a == front + [z] && a + b == front + ([z] + b);
      PartsSorted(front, zero);
      ZeroAtRight(p, START, front, z, b, cut);
      assert forall e :: e in a <==> e in front || e == z;
      assert zero[1..] == [];
      var (judged, keep) := Judge(p, Enter(START, z), z);
      assert FilterUntil(p, judged, [], None) == [];
      assert FilterUntil(p, START, zero, None) == if p.dropped(z.key) || !keep then [] else Emit(Enter(START, z), z, keep);
      forall e | e in a && e.key == Boundary(cut) ensures e == z {
        var i :| 0 <= i < |a| && a[i] == e;
        assert i < |a| - 1 ==> Before(a[i].key, a[|a| - 1].key);
      }
    }
  }

  ghost predicate Upcoming(es: seq<Entry>, zero: seq<Entry>, left: InternalKey, bounds: seq<UserKey>) {
    && Sorted(es) && (forall e | e in es :: !Before(e.key, left))
    && (zero == [] || (|zero| == 1 && zero[0].key == left && (forall e | e in es :: left.user < e.key.user)
                       && forall b | b in bounds :: left.user < b))
  }

  lemma NotBefore(k: InternalKey)
    ensures !Before(k, k)
  {
  }

  lemma UpcomingNext(b: seq<Entry>, next: seq<Entry>, bounds: seq<UserKey>)
    requires Sorted(b) && Ascending(bounds) && bounds != []
    requires next == [] || (|next| == 1 && next[0].key == Boundary(bounds[0]))
    requires forall e | e in b :: bounds[0] < e.key.user
    ensures Upcoming(b, next, Boundary(bounds[0]), bounds[1..]) && Ascending(bounds[1..])
  {
    hide Sorted;
    forall c | c in bounds[1..] ensures bounds[0] < c {
      var j :| 1 <= j < |bounds| && bounds[j] == c;
    }
  }

  lemma DoneNext(done: seq<Entry>, zero: seq<Entry>, es: seq<Entry>, left: InternalKey, bounds: seq<UserKey>, front: seq<Entry>)
    requires Upcoming(es, zero, left, bounds) && Ascending(bounds) && bounds != []
    requires (forall e, c | e in done && c in bounds :: e.key.user < c) && forall e | e in front :: Before(e.key, Boundary(bounds[0]))
    ensures forall e | e in done + (zero + front) :: Before(e.key, Boundary(bounds[0]))
    ensures forall e, c | e in done + (zero + front) && c in bounds[1..] :: e.key.user < c
  {
    assert bounds[0] in bounds;
    forall e | e in done + (zero + front) ensures Before(e.key, Boundary(bounds[0])) {
      assert e in done || e in zero || e in front;
    }
    forall c | c in bounds[1..] ensures bounds[0] < c {
      var j :| 1 <= j < |bounds| && bounds[j] == c;
    }
  }

  lemma RepeatedIn(p: Params, es: seq<Entry>, a: seq<Entry>, b: seq<Entry>, bounds: seq<UserKey>)
    requires es == a + b && bounds != [] && Ascending(bounds)
    requires (forall e | e in a :: e.key.user <= bounds[0]) && forall e | e in b :: bounds[0] < e.key.user
    ensures (exists c :: c in bounds && Repeated(p, es, c)) <==>
            Repeated(p, a, bounds[0]) || exists c :: c in bounds[1..] && Repeated(p, b, c)
  {
    assert forall e :: e in es <==> e in a || e in b;
    assert Repeated(p, es, bounds[0]) <==> Repeated(p, a, bounds[0]);
    forall c | c in bounds[1..] ensures Repeated(p, es, c) <==> Repeated(p, b, c) {
      var j :| 1 <= j < |bounds| && bounds[j] == c;
    }
    assert forall c :: c in bounds <==> c == bounds[0] || c in bounds[1..];
  }

  lemma ZeroFirst(p: Params, zero: seq<Entry>, es: seq<Entry>, left: InternalKey, right: Option<InternalKey>)
    requires zero == [] || (|zero| == 1 && zero[0].key == left && forall e | e in es :: left.user < e.key.user)
    requires zero != [] && right.Some? ==> Before(left, right.value)
    ensures FilterUntil(p, START, zero + es, right) == FilterUntil(p, START, zero, None) + FilterUntil(p, START, es, right)
  {
    if zero == [] {
      assert zero + es == es;
    } else {
      var z := zero[0];
      assert zero[1..] == [] && (zero + es)[1..] == es;
      CursorForgotten(p, Judge(p, Enter(START, z), z).0, es, right);
      assert FilterUntil(p, Judge(p, Enter(START, z), z).0, [], None) == [];
    }
  }

  /** The output of one split and the rest, against that of a single pass. */
  lemma Tally(zero: seq<Output>, part: seq<Output>, rest: seq<Output>, again: seq<Output>, a: seq<Output>, b: seq<Output>,
              repeated: bool, later: bool)
    requires |again + b| <= |rest| && (rest == again + b <==> !later)
    requires if repeated then |again| > 0 && part == a else part + again == a
    ensures |zero + (a + b)| <= |(zero + part) + rest|
    ensures (zero + part) + rest == zero + (a + b) <==> !repeated && !later
  {
    if !repeated {
      assert zero + (a + b) == (zero + part) + (again + b);
      var x, y := (zero + part) + rest, (zero + part) + (again + b);
      assert x[|zero + part|..] == rest && y[|zero + part|..] == again + b;
    }
  }

  lemma {:induction false} SplitsFrom(p: Params, done: seq<Entry>, zero: seq<Entry>, es: seq<Entry>, left: InternalKey,
                                      bounds: seq<UserKey>)
    requires (forall e | e in done :: Before(e.key, left)) && Upcoming(es, zero, left, bounds) && Ascending(bounds)
    requires forall e, c | e in done && c in bounds :: e.key.user < c
    ensures var all, once := RunSplits(p, done + (zero + es), SplitsAt(left, bounds)), FilterUntil(p, START, zero, None) + Filter(p, es);
            |once| <= |all| && (all == once <==> !exists c :: c in bounds && Repeated(p, es, c))
    decreases |bounds|
  {
    hide Repeated, FilterUntil, Sorted, Before, SeekTo;
    var splits, from := SplitsAt(left, bounds), zero + es;
    forall e | e in from ensures !Before(e.key, left) {
      NotBefore(left);
    }
    SeekAfter(done, from, left);
    if bounds == [] {
      assert RunSplits(p, done + from, splits[1..]) == [];
      ZeroFirst(p, zero, es, left, None);
    } else {
      var cut := bounds[0];
      var a, b := CutAt(es, cut);
      PartsSorted(a, b);
      var front, next := VersionZeroLast(a, cut);
      UpcomingNext(b, next, bounds);
      OneSplit(p, a, b, cut, next, front);
      FilterSplits(p, START, a, b, cut);
      assert cut in bounds;
      ZeroFirst(p, zero, es, left, Some(Boundary(cut)));
      RepeatedIn(p, es, a, b, bounds);
      assert done + from == (done + (zero + front)) + (next + b);
      DoneNext(done, zero, es, left, bounds, front);
      SplitsFrom(p, done + (zero + front), next, b, Boundary(cut), bounds[1..]);
      assert splits[1..] == SplitsAt(Boundary(cut), bounds[1..]);
      var rest := RunSplits(p, done + from, splits[1..]);
      Tally(FilterUntil(p, START, zero, None), FilterUntil(p, START, es, Some(Boundary(cut))), rest,
            FilterUntil(p, START, next, None), Filter(p, a), Filter(p, b),
            Repeated(p, a, cut), exists c :: c in bounds[1..] && Repeated(p, b, c));
    }
  }

  /** The splits put out exactly what a single pass would, if and only if no version 0 of a bound is
      put out behind a newer version of it. */
  lemma SplitsAreExactly(p: Params, es: seq<Entry>, left: InternalKey, bounds: seq<UserKey>)
    requires Sorted(es) && Ascending(bounds) && forall e | e in es :: !Before(e.key, left)
    ensures RunSplits(p, es, SplitsAt(left, bounds)) == Filter(p, es) <==> !exists c :: c in bounds && Repeated(p, es, c)
  {
    hide Repeated;
    assert [] + ([] + es) == es;
    assert FilterUntil(p, START, [], None) == [];
    SplitsFrom(p, [], [], es, left, bounds);
  }

  /** Running the splits one by one puts out exactly what a single pass would, stale marks
      included. Commit timestamps start at 1, so no version sits at a boundary. */
  lemma SplitsAreExact(p: Params, es: seq<Entry>, left: InternalKey, bounds: seq<UserKey>)
    requires Sorted(es) && Ascending(bounds)
    requires forall e | e in es :: !Before(e.key, left) && e.key.ts >= 1
    ensures RunSplits(p, es, SplitsAt(left, bounds)) == Filter(p, es)
  {
    SplitsAreExactly(p, es, left, bounds);
  }

  // ---------- A discard timestamp for each split ----------

  function At(p: Params, discardTs: nat): Params {
    p.(discardTs := discardTs)
  }

  /** Each subcompaction reads the discard timestamp for itself, and it may have risen in between. */
  function RunEach(p: Params, es: seq<Entry>, splits: seq<Split>, discards: seq<nat>): seq<Output>
    requires |discards| == |splits|
  {
    if splits == [] then []
    else FilterUntil(At(p, discards[0]), START, SeekTo(es, splits[0].left), splits[0].right)
         + RunEach(p, es, splits[1..], discards[1..])
  }

  lemma {:induction false} OneDiscard(p: Params, es: seq<Entry>, splits: seq<Split>, discards: seq<nat>)
    requires |discards| == |splits| && forall d | d in discards :: d == p.discardTs
    ensures RunEach(p, es, splits, discards) == RunSplits(p, es, splits)
  {
    if splits != [] {
      assert discards[0] in discards && forall d | d in discards[1..] :: d in discards;
      OneDiscard(p, es, splits[1..], discards[1..]);
    }
  }

  /** A read only looks at the versions of its own key. */
  lemma ReadsItsKey(s: set<Entry>, t: set<Entry>, user: UserKey, ts: nat, answer: Option<Entry>)
    requires forall e: Entry | e.key.user == user :: e in s <==> e in t
    ensures Reads(s, user, ts, answer) <==> Reads(t, user, ts, answer)
  {
    assert forall e :: Newest(s, user, ts, e) <==> Newest(t, user, ts, e);
  }

  lemma {:induction false} EachPreserves(p: Params, done: seq<Entry>, es: seq<Entry>, left: InternalKey, bounds: seq<UserKey>,
                                         discards: seq<nat>, user: UserKey, ts: nat, answer: Option<Entry>)
    requires Sorted(es) && Ascending(bounds) && |discards| == |bounds| + 1
    requires (forall e | e in done :: Before(e.key, left)) && forall e | e in es :: !Before(e.key, left) && e.key.ts >= 1
    requires forall e, c | e in done && c in bounds :: e.key.user < c
    requires NothingDropped(p, user) && forall d | d in discards :: d <= ts
    ensures var out := RunEach(p, done + es, SplitsAt(left, bounds), discards);
            && (forall o | o in out :: o.entry in es)
            && (Reads(Set(es), user, ts, answer) <==> Reads(Contents(out), user, ts, answer))
    decreases |bounds|
  {
    hide Reads, Newest, Absent, FilterUntil, Sorted, NothingDropped, Before, SeekTo;
    var splits, p0 := SplitsAt(left, bounds), At(p, discards[0]);
    SeekAfter(done, es, left);
    assert discards[0] in discards && forall d | d in discards[1..] :: d in discards;
    var a, b := es, [];
    var rest := [];
    if bounds == [] {
      assert RunEach(p, done + es, splits[1..], discards[1..]) == [];
    } else {
      a, b := CutAt(es, bounds[0]);
      PartsSorted(a, b);
      UpToCut(a, bounds[0]);
      BeyondCut(b, bounds[0]);
      RangeStops(p0, START, a, b, bounds[0]);
      UpcomingNext(b, [], bounds);
      DoneNext(done, [], es, left, bounds, a);
      assert done + es == (done + ([] + a)) + b && forall e | e in b :: e in es;
      rest := RunEach(p, done + es, splits[1..], discards[1..]);
      EachPreserves(p, done + ([] + a), b, Boundary(bounds[0]), bounds[1..], discards[1..], user, ts, answer);
    }
    var first := FilterUntil(p0, START, a, None);
    FilterIsSublist(p0, START, a, None);
    NothingDroppedAt(p, discards[0], user);
    SnapshotsPreserved(p0, a, user, ts, answer);
    assert RunEach(p, done + es, splits, discards) == first + rest;
    if bounds == [] || user <= bounds[0] {
      ReadsItsKey(Set(es), Set(a), user, ts, answer);
      ReadsItsKey(Contents(first + rest), Contents(first), user, ts, answer);
    } else {
      ReadsItsKey(Set(es), Set(b), user, ts, answer);
      ReadsItsKey(Contents(first + rest), Contents(rest), user, ts, answer);
    }
  }

  lemma NothingDroppedAt(p: Params, discardTs: nat, user: UserKey)
    requires NothingDropped(p, user)
    ensures NothingDropped(At(p, discardTs), user)
  {
  }

  lemma UpToCut(a: seq<Entry>, cut: UserKey)
    requires forall e | e in a :: e.key.user <= cut && e.key.ts >= 1
    ensures forall e | e in a :: Before(e.key, Boundary(cut))
  {
  }

  lemma BeyondCut(b: seq<Entry>, cut: UserKey)
    requires forall e | e in b :: cut < e.key.user
    ensures forall e | e in b :: !Before(e.key, Boundary(cut))
  {
  }

  /** Whatever discard timestamps the subcompactions read, no read at or above all of them changes
      its answer. */
  lemma EachSplitPreserves(p: Params, es: seq<Entry>, left: InternalKey, bounds: seq<UserKey>, discards: seq<nat>,
                           user: UserKey, ts: nat, answer: Option<Entry>)
    requires Sorted(es) && Ascending(bounds) && |discards| == |bounds| + 1
    requires forall e | e in es :: !Before(e.key, left) && e.key.ts >= 1
    requires NothingDropped(p, user) && forall d | d in discards :: d <= ts
    ensures var out := Contents(RunEach(p, es, SplitsAt(left, bounds), discards));
            Reads(Set(es), user, ts, answer) <==> Reads(out, user, ts, answer)
  {
    assert [] + es == es;
    EachPreserves(p, [], es, left, bounds, discards, user, ts, answer);
  }

  // ---------- The tables of all splits ----------

  lemma {:induction false} ConcatJoins(a: seq<seq<Output>>, b: seq<seq<Output>>)
    ensures Concat(a + b) == Concat(a) + Concat(b)
    decreases |b|
  {
    if b == [] {
      assert a + b == a;
    } else {
      ConcatJoins(a, b[..|b| - 1]);
      assert (a + b)[..|a + b| - 1] == a + b[..|b| - 1];
      Associate(Concat(a), Concat(b[..|b| - 1]), b[|b| - 1]);
    }
  }

  lemma {:induction false} InConcat(tables: seq<seq<Output>>, i: nat, o: Output)
    requires i < |tables| && o in tables[i]
    ensures o in Concat(tables)
    decreases |tables|
  {
    if i < |tables| - 1 {
      InConcat(tables[..|tables| - 1], i, o);
    }
  }

  lemma {:induction false} SeekToIs(es: seq<Entry>, left: InternalKey, pos: nat)
    requires pos <= |es| && (forall i | 0 <= i < pos :: Before(es[i].key, left))
    requires pos < |es| ==> !Before(es[pos].key, left)
    ensures SeekTo(es, left) == es[pos..]
  {
    if pos > 0 {
      SeekToIs(es[1..], left, pos - 1);
      assert es[1..][pos - 1..] == es[pos..];
    }
  }

  lemma {:induction false} SplitAt(left: InternalKey, bounds: seq<UserKey>, i: nat)
    requires i <= |bounds|
    ensures SplitsAt(left, bounds)[i] ==
            Split(if i == 0 then left else Boundary(bounds[i - 1]), if i < |bounds| then Some(Boundary(bounds[i])) else None)
    decreases |bounds|
  {
    if bounds != [] {
      SplitAt(Boundary(bounds[0]), bounds[1..], if i == 0 then 0 else i - 1);
    }
  }

  /** What a subcompaction puts out lies at or after its left end and up to its right end. */
  lemma SplitUsers(p: Params, es: seq<Entry>, pos: nat, right: Option<InternalKey>, cut: UserKey, o: Output)
    requires Sorted(es) && pos <= |es| && (forall e | e in es :: e.key.ts >= 1)
    requires right.None? || right == Some(Boundary(cut))
    requires o in FilterFrom(p, START, es, pos, right)
    ensures o.entry in es[pos..] && (right.Some? ==> o.entry.key.user <= cut)
  {
    var rest := es[pos..];
    assert Sorted(rest);
    if right.None? {
      FilterIsSublist(p, START, rest, None);
    } else {
      var a, b := CutAt(rest, cut);
      forall e | e in a ensures e in es {
        assert e in a + b;
      }
      RangeStops(p, START, a, b, cut);
      assert Sorted(a) by {
        assert forall i | 0 <= i < |a| :: a[i] == rest[i];
      }
      FilterIsSublist(p, START, a, None);
      assert o.entry in a;
    }
  }

  lemma SplitWithin(p: Params, es: seq<Entry>, pos: nat, left: InternalKey, right: Option<InternalKey>, cut: UserKey,
                    tables: seq<seq<Output>>)
    requires Sorted(es) && pos <= |es| && (forall e | e in es :: e.key.ts >= 1)
    requires (pos < |es| ==> !Before(es[pos].key, left)) && (right.None? || right == Some(Boundary(cut)))
    requires Concat(tables) == FilterFrom(p, START, es, pos, right)
    ensures forall k, o | 0 <= k < |tables| && o in tables[k] ::
        o.entry.key.ts >= 1 && !Before(o.entry.key, left) && (right.Some? ==> o.entry.key.user <= cut)
  {
    forall k, o | 0 <= k < |tables| && o in tables[k]
      ensures o.entry.key.ts >= 1 && !Before(o.entry.key, left) && (right.Some? ==> o.entry.key.user <= cut)
    {
      InConcat(tables, k, o);
      SplitUsers(p, es, pos, right, cut, o);
      var x :| pos <= x < |es| && es[x] == o.entry;
    }
  }

  /** The tables of one more split behind those of the splits before it. */
  lemma JoinWhole(a: seq<seq<Output>>, b: seq<seq<Output>>, left: InternalKey, from: Option<UserKey>, cut: Option<UserKey>)
    requires WholeKeys(a) && WholeKeys(b)
    requires if from.None? then a == [] else left == Boundary(from.value) && AllBelow(a, from.value + 1)
    requires from.Some? && cut.Some? ==> from.value <= cut.value
    requires forall k, o | 0 <= k < |b| && o in b[k] ::
        o.entry.key.ts >= 1 && !Before(o.entry.key, left) && (cut.Some? ==> o.entry.key.user <= cut.value)
    ensures WholeKeys(a + b) && (cut.Some? ==> AllBelow(a + b, cut.value + 1))
  {
    if from.None? {
      assert a + b == b;
    } else {
      forall k, o | 0 <= k < |b| && o in b[k] ensures from.value < o.entry.key.user {
        assert !Before(o.entry.key, left);
      }
    }
  }

  lemma StartWhole()
    ensures WholeKeys([]) && Concat([]) == []
  {
  }

  /** One subcompaction for each split, as compactBuildTables runs them, each with the discard
      timestamp it reads. Together their tables hold exactly what one pass over the whole range puts
      out, if they all read the same; no user key is spread over two tables, not even of different
      subcompactions. */
  method RunSubcompactions(p: Params, es: seq<Entry>, left: InternalKey, bounds: seq<UserKey>, discards: seq<nat>, cuts: Cuts)
    returns (tables: seq<seq<Output>>)
    requires Sorted(es) && Ascending(bounds) && |discards| == |bounds| + 1 && !cuts.capacity([])
    requires forall e | e in es :: !Before(e.key, left) && e.key.ts >= 1
    ensures Concat(tables) == RunEach(p, es, SplitsAt(left, bounds), discards)
    ensures (forall d | d in discards :: d == p.discardTs) ==> Concat(tables) == Filter(p, es)
    ensures WholeKeys(tables)
  {
    hide FilterUntil, WholeKeys, AllBelow, Concat;
    StartWhole();
    tables := [];
    var splits := SplitsAt(left, bounds);
    SplitAt(left, bounds, 0);
    ghost var all := RunEach(p, es, splits, discards);
    for i := 0 to |splits|
      invariant all == Concat(tables) + RunEach(p, es, splits[i..], discards[i..])
      invariant WholeKeys(tables) && (i == 0 ==> tables == [])
      invariant 0 < i <= |bounds| ==> AllBelow(tables, bounds[i - 1] + 1)
    {
      SplitAt(left, bounds, i);
      assert splits[i..][0] == splits[i] && splits[i..][1..] == splits[i + 1..];
      assert discards[i..][0] == discards[i] && discards[i..][1..] == discards[i + 1..];
      var pos := SeekFrom(es, Some(splits[i].left));
      SeekToIs(es, splits[i].left, pos);
      var more := Subcompact(At(p, discards[i]), es, pos, splits[i].right, cuts);
      ConcatJoins(tables, more);
      Associate(Concat(tables), Concat(more), RunEach(p, es, splits[i + 1..], discards[i + 1..]));
      SplitWithin(At(p, discards[i]), es, pos, splits[i].left, splits[i].right, if i < |bounds| then bounds[i] else 0, more);
      JoinWhole(tables, more, splits[i].left, if i == 0 then None else Some(bounds[i - 1]),
                if i < |bounds| then Some(bounds[i]) else None);
      tables := tables + more;
    }
    SplitsAreExact(p, es, left, bounds);
    if forall d | d in discards :: d == p.discardTs {
      OneDiscard(p, es, splits, discards);
    }
  }

  /** A version 0 of a boundary key would be put out twice. */
  lemma VersionZeroIsDuplicated()
    ensures var p := Params(9, 2, true, _ => false);
            var es := [Entry(InternalKey(7, 5), false, false, false, 1), Entry(InternalKey(7, 0), false, false, false, 2)];
            && Sorted(es)
            && |Filter(p, es)| == 2
            && |RunSplits(p, es, SplitsAt(InternalKey(7, 9), [7]))| == 3
  {
    var p := Params(9, 2, true, _ => false);
    var a, b := Entry(InternalKey(7, 5), false, false, false, 1), Entry(InternalKey(7, 0), false, false, false, 2);
    var es := [a, b];
    assert es[1..] == [b] && [b][1..] == [];
    var right := Some(Boundary(7));
    var c1 := Judge(p, Enter(START, a), a).0;
    var c2 := Judge(p, Enter(c1, b), b).0;
    assert FilterUntil(p, c2, [], None) == [] && FilterUntil(p, c2, [], right) == [];
    assert |FilterUntil(p, c1, [b], None)| == 1 && |FilterUntil(p, c1, [b], right)| == 1;
    assert |FilterUntil(p, START, es, None)| == 2 && |FilterUntil(p, START, es, right)| == 2;
    assert SeekTo(es, InternalKey(7, 9)) == es;
    assert SeekTo(es, Boundary(7)) == SeekTo([b], Boundary(7)) == [b];
    var c3 := Judge(p, Enter(START, b), b).0;
    assert FilterUntil(p, c3, [], None) == [];
    assert |FilterUntil(p, START, [b], None)| == 1;
    var s0, s1 := Split(InternalKey(7, 9), right), Split(Boundary(7), None);
    assert [7][1..] == [];
    assert SplitsAt(InternalKey(7, 9), [7]) == [s0, s1];
    assert [s0, s1][1..] == [s1] && [s1][1..] == [];
    assert |RunSplits(p, es, [s1])| == 1;
  }
}
