/** heatLSM: how a leaf is split on common prefixes of its sampled keys, and exactly when the split
    sends every key to a child that takes it. */
module HeatRouting {
  import opened Keys

  type Key = Bytes

  predicate Less(a: Key, b: Key) {
    Compare(a, b) < 0
  }

  predicate IsPrefix(p: Key, k: Key) {
    p <= k
  }

  // ---------- The end of a prefix range ----------

  /** NextKeySameLength: one more in the last byte, carrying to the left and wrapping around. */
  function Next(key: Key): (next: Key)
    ensures |next| == |key|
  {
    if key == [] then []
    else
      var front, last := key[..|key| - 1], key[|key| - 1];
      if last < 255 then front + [last + 1] else Next(front) + [0]
  }

  /** One step of the carry: the last byte of the front is counted up, and 255 becomes 0. */
  lemma NextStep(front: Key, rest: Key)
    requires front != []
    ensures var init, last := front[..|front| - 1], front[|front| - 1];
            Next(front) + rest == if last == 255 then Next(init) + ([0] + rest) else init + ([last + 1] + rest)
  {
    var init, last := front[..|front| - 1], front[|front| - 1];
    assert last == 255 ==> (Next(init) + [0]) + rest == Next(init) + ([0] + rest);
    assert last < 255 ==> (init + [last + 1]) + rest == init + ([last + 1] + rest);
  }

  /** What the loop has made of the key when the bytes behind `i` are done. */
  predicate Carried(key: Key, now: Key, i: int) {
    && -1 <= i < |key| && |now| == |key|
    && now[..i + 1] == key[..i + 1] && Next(key) == Next(key[..i + 1]) + now[i + 1..]
  }

  lemma FrontOf(key: Key, now: Key, i: nat)
    requires i < |key| == |now| && now[..i + 1] == key[..i + 1]
    ensures var front := key[..i + 1];
            |front| == i + 1 && front[..i] == key[..i] == now[..i] && front[i] == now[i]
  {
    assert now[..i + 1][..i] == now[..i] && now[..i + 1][i] == now[i];
  }

  lemma CarryOn(key: Key, now: Key, i: nat)
    requires Carried(key, now, i)
    ensures var b: Byte := if now[i] == 255 then 0 else now[i] + 1;
            if b == 0 then Carried(key, now[i := b], i - 1) else now[i := b] == Next(key)
  {
    hide Next;
    var b: Byte := if now[i] == 255 then 0 else now[i] + 1;
    var next, front, rest := now[i := b], key[..i + 1], now[i + 1..];
    FrontOf(key, now, i);
    NextStep(front, rest);
    assert next[..i] == now[..i] && next[i..] == [b] + rest;
    if b == 0 {
      assert Next(key) == Next(key[..i]) + next[i..];
    } else {
      assert Next(key) == key[..i] + next[i..];
      assert next == next[..i] + next[i..];
    }
  }

  lemma CarryStart(key: Key)
    ensures Carried(key, key, |key| - 1)
  {
    hide Next;
    assert key[..|key|] == key && Next(key) + [] == Next(key);
  }

  lemma CarryDone(key: Key, now: Key)
    requires Carried(key, now, -1)
    ensures now == Next(key)
  {
    NextNothing();
    assert now[0..] == now && key[..0] == [] && [] + now == now;
  }

  method NextKeySameLength(key: Key) returns (newKey: Key)
    ensures newKey == Next(key)
  {
    hide Next, Carried;
    newKey := key;
    var i := |key| - 1;
    CarryStart(key);
    while i >= 0
      invariant -1 <= i < |key| == |newKey| && Carried(key, newKey, i)
    {
      CarryOn(key, newKey, i);
      newKey := newKey[i := if newKey[i] == 255 then 0 else newKey[i] + 1];
      if newKey[i] != 0 {
        return;
      }
      i := i - 1;
    }
    CarryDone(key, newKey);
  }

  lemma NextNothing()
    ensures Next([]) == []
  {
  }

  /** A prefix that can be a child's path: its range ends at the next key of the same length. */
  predicate Proper(p: Key) {
    p != [] && p[|p| - 1] < 255
  }

  /** The keys from p up to Next(p) are exactly those that start with p. */
  lemma {:induction false} PrefixRange(p: Key, k: Key)
    requires Proper(p)
    ensures !Less(k, p) && Less(k, Next(p)) <==> IsPrefix(p, k)
    decreases |p|
  {
    var n := Next(p);
    if |p| == 1 {
      assert n == [p[0] + 1] && p == [p[0]];
      if k != [] {
        assert Compare(k[1..], []) >= 0;
      }
    } else if k != [] {
      assert n[0] == p[0] && n[1..] == Next(p[1..]) by {
        assert p[1..][..|p| - 2] == p[..|p| - 1][1..];
      }
      PrefixRange(p[1..], k[1..]);
      assert k == [k[0]] + k[1..] && p == [p[0]] + p[1..];
    }
  }

  lemma LessOrMore(a: Key, b: Key)
    ensures Less(a, b) || a == b || Less(b, a)
    ensures !(Less(a, b) && Less(b, a))
  {
    CompareAntisymmetric(a, b);
  }

  lemma {:induction false} PrefixIsNotAfter(p: Key, k: Key)
    requires IsPrefix(p, k)
    ensures !Less(k, p)
  {
    if p != [] {
      PrefixIsNotAfter(p[1..], k[1..]);
    }
  }

  /** Behind a prefix range come only keys at or after its end. */
  lemma AfterRange(p: Key, k: Key)
    requires Proper(p) && Less(p, k) && !IsPrefix(p, k)
    ensures !Less(k, Next(p))
  {
    PrefixRange(p, k);
    LessOrMore(p, k);
  }

  // ---------- Searching the split keys ----------

  predicate Ascending(keys: seq<Key>) {
    forall i, j | 0 <= i < j < |keys| :: Less(keys[i], keys[j])
  }

  /** The first split key beyond `k`. */
  function Cell(splits: seq<Key>, k: Key): (i: nat)
    ensures i <= |splits|
    ensures forall j | 0 <= j < i :: !Less(k, splits[j])
    ensures i < |splits| ==> Less(k, splits[i])
  {
    if splits == [] then 0
    else if Less(k, splits[0]) then 0
    else 1 + Cell(splits[1..], k)
  }

  lemma {:induction false} CellIs(splits: seq<Key>, k: Key, i: nat)
    requires i <= |splits| && (forall x | 0 <= x < i :: !Less(k, splits[x])) && (i < |splits| ==> Less(k, splits[i]))
    ensures Cell(splits, k) == i
  {
    if i > 0 {
      CellIs(splits[1..], k, i - 1);
    }
  }

  /** The probes of sort.Search for the first split key beyond `k`, in whatever order the split keys
      are. */
  function Search(splits: seq<Key>, k: Key, i: nat, j: nat): (at: nat)
    requires i <= j <= |splits|
    ensures i <= at <= j
    decreases j - i
  {
    if i == j then i
    else
      var h := (i + j) / 2;
      if Less(k, splits[h]) then Search(splits, k, i, h) else Search(splits, k, h + 1, j)
  }

  method FindCell(splits: seq<Key>, k: Key) returns (i: nat)
    ensures i == Search(splits, k, 0, |splits|)
  {
    i := 0;
    var j := |splits|;
    while i < j
      invariant i <= j <= |splits|
      invariant Search(splits, k, i, j) == Search(splits, k, 0, |splits|)
    {
      var h := (i + j) / 2;
      if !Less(k, splits[h]) {
        i := h + 1;
      } else {
        j := h;
      }
    }
  }

  /** The child that a key of the node goes on to. */
  function At(splits: seq<Key>, n: nat, k: Key): (at: nat)
    requires n > 0
    ensures at < n
  {
    var i := Search(splits, k, 0, |splits|);
    if i >= n then n - 1 else i
  }

  lemma SplitSides(splits: seq<Key>, h: nat, k: Key)
    requires Ascending(splits) && h < |splits|
    ensures !Less(k, splits[h]) ==> forall x | 0 <= x <= h :: !Less(k, splits[x])
    ensures Less(k, splits[h]) ==> forall x | h <= x < |splits| :: Less(k, splits[x])
  {
    forall x | 0 <= x <= h ensures Less(k, splits[x]) ==> Less(k, splits[h]) {
      BeforeSplit(splits, x, h, k);
    }
    forall x | h <= x < |splits| ensures Less(k, splits[h]) ==> Less(k, splits[x]) {
      BeforeSplit(splits, h, x, k);
    }
  }

  lemma BeforeSplit(splits: seq<Key>, x: nat, y: nat, k: Key)
    requires Ascending(splits) && x <= y < |splits|
    ensures Less(k, splits[x]) ==> Less(k, splits[y])
  {
    if x < y && Less(k, splits[x]) {
      CompareTransitive(k, splits[x], splits[y]);
    }
  }

  lemma {:induction false} SearchIsCell(splits: seq<Key>, k: Key, i: nat, j: nat)
    requires Ascending(splits) && i <= j <= |splits|
    requires forall x | 0 <= x < i :: !Less(k, splits[x])
    requires forall x | j <= x < |splits| :: Less(k, splits[x])
    ensures Search(splits, k, i, j) == Cell(splits, k)
    decreases j - i
  {
    if i == j {
      CellIs(splits, k, i);
    } else {
      var h := (i + j) / 2;
      SplitSides(splits, h, k);
      if Less(k, splits[h]) {
        SearchIsCell(splits, k, i, h);
      } else {
        SearchIsCell(splits, k, h + 1, j);
      }
    }
  }

  /** Keys on the same side of every split key are searched alike. */
  lemma {:induction false} SearchSame(splits: seq<Key>, k: Key, a: Key, i: nat, j: nat)
    requires i <= j <= |splits|
    requires forall x | x in splits :: Less(k, x) <==> Less(a, x)
    ensures Search(splits, k, i, j) == Search(splits, a, i, j)
    decreases j - i
  {
    if i < j {
      var h := (i + j) / 2;
      assert splits[h] in splits;
      if Less(k, splits[h]) {
        SearchSame(splits, k, a, i, h);
      } else {
        SearchSame(splits, k, a, h + 1, j);
      }
    }
  }

  // ---------- Splitting ----------

  /** A child to be: a gap with no path of its own, or the range of one prefix. */
  datatype Span = Span(start: Key, end: Key, path: Key)

  predicate SpanOk(s: Span) {
    s.path == [] || (Proper(s.path) && s.start == s.path && s.end == Next(s.path))
  }

  /** The spans tile the keys from the first split on: each ends where the next begins. */
  ghost predicate Tiles(spans: seq<Span>, splits: seq<Key>) {
    && |splits| <= |spans| <= |splits| + 1 && Ascending(splits)
    && (forall i | 0 <= i < |spans| :: SpanOk(spans[i]))
    && (forall i | 0 <= i < |splits| :: spans[i].end == splits[i])
    && (forall i | 0 < i < |spans| :: spans[i].start == splits[i - 1])
  }

  /** The prefixes of the chosen groups, in order: none is empty or ends in 0xFF, and none starts
      another. */
  ghost predicate GoodPrefixes(ps: seq<Key>) {
    && (forall i | 0 <= i < |ps| :: Proper(ps[i]))
    && forall i, j | 0 <= i < j < |ps| :: Less(ps[i], ps[j]) && !IsPrefix(ps[i], ps[j])
  }

  lemma AscendingMore(splits: seq<Key>, k: Key)
    requires Ascending(splits) && (splits != [] ==> Less(splits[|splits| - 1], k))
    ensures Ascending(splits + [k])
  {
    forall i | 0 <= i < |splits| ensures Less(splits[i], k) {
      if i < |splits| - 1 {
        CompareTransitive(splits[i], splits[|splits| - 1], k);
      }
    }
  }

  lemma LessThanNext(p: Key)
    requires Proper(p)
    ensures Less(p, Next(p))
  {
    PrefixRange(p, p);
  }

  lemma TileMore(spans: seq<Span>, splits: seq<Key>, s: Span)
    requires Tiles(spans, splits) && |spans| == |splits| > 0 && SpanOk(s)
    requires s.start == splits[|splits| - 1] && Less(s.start, s.end)
    ensures Tiles(spans + [s], splits + [s.end])
  {
    AscendingMore(splits, s.end);
  }

  lemma TileLast(spans: seq<Span>, splits: seq<Key>, s: Span)
    requires Tiles(spans, splits) && |spans| == |splits| > 0 && SpanOk(s) && s.start == splits[|splits| - 1]
    ensures Tiles(spans + [s], splits)
  {
    hide Ascending, Less, SpanOk;
  }

  /** What the children of a node with the given path and bounds look like at their two ends. */
  predicate Bounded(path: Key, rangeStart: Key, rangeEnd: Key, spans: seq<Span>, splits: seq<Key>) {
    && 0 < |splits| <= |spans| <= |splits| + 1
    && spans[0].path == [] && spans[0].start == (if path == [] then rangeStart else [])
    && if |spans| == |splits| then path == [] && splits[|splits| - 1] == rangeEnd
       else spans[|splits|] == Span(splits[|splits| - 1], if path == [] then rangeEnd else [], [])
  }

  /** What follows the range of group `i`: the next group, or the end of the node. */
  function Behind(path: Key, rangeEnd: Key, ps: seq<Key>, i: nat): Key
    requires i < |ps|
  {
    if i < |ps| - 1 then ps[i + 1] else if path == [] then rangeEnd else []
  }

  /** The children that splitReservoir makes, up to group `n`: a front gap, then each group's range and
      the gap behind it, unless that is empty. */
  function LayoutTo(path: Key, rangeStart: Key, rangeEnd: Key, ps: seq<Key>, n: nat): (r: (seq<Span>, seq<Key>))
    requires ps != [] && n <= |ps|
    ensures r.0 != []
  {
    if n == 0 then ([Span(if path == [] then rangeStart else [], ps[0], [])], [ps[0]])
    else
      var (spans, splits) := LayoutTo(path, rangeStart, rangeEnd, ps, n - 1);
      var p, end, after := ps[n - 1], Next(ps[n - 1]), Behind(path, rangeEnd, ps, n - 1);
      if after == end then (spans + [Span(p, end, p)], splits + [end])
      else (spans + [Span(p, end, p), Span(end, after, [])], splits + if n == |ps| then [end] else [end, after])
  }

  function LayoutOf(path: Key, rangeStart: Key, rangeEnd: Key, ps: seq<Key>): (r: (seq<Span>, seq<Key>))
    requires ps != []
    ensures r.0 != []
  {
    LayoutTo(path, rangeStart, rangeEnd, ps, |ps|)
  }

  /** The spans of the groups, in order, at the places `at`; all others are gaps. */
  ghost predicate OneEach(spans: seq<Span>, ps: seq<Key>, at: seq<nat>) {
    && |at| == |ps| && (forall i, j | 0 <= i < j < |at| :: at[i] < at[j])
    && (forall i | 0 <= i < |at| :: at[i] < |spans| && spans[at[i]] == Span(ps[i], Next(ps[i]), ps[i]))
    && forall k | 0 <= k < |spans| && spans[k].path != [] :: k in at
  }

  ghost predicate OneForEach(spans: seq<Span>, ps: seq<Key>) {
    exists at :: OneEach(spans, ps, at)
  }

  lemma OwnSpan(spans: seq<Span>, ps: seq<Key>, p: Key)
    requires OneForEach(spans, ps)
    ensures OneForEach(spans + [Span(p, Next(p), p)], ps + [p])
  {
    hide Next, OneEach;
    var at: seq<nat> :| OneEach(spans, ps, at);
    OwnLast(spans, ps, p, at);
  }

  lemma OwnLast(spans: seq<Span>, ps: seq<Key>, p: Key, at: seq<nat>)
    requires OneEach(spans, ps, at)
    ensures OneEach(spans + [Span(p, Next(p), p)], ps + [p], at + [|spans|])
  {
    hide Next;
    var more, now, places := spans + [Span(p, Next(p), p)], ps + [p], at + [|spans|];
    assert places[|at|] == |spans| && now[|at|] == p && more[|spans|] == Span(p, Next(p), p);
    forall i | 0 <= i < |places| ensures places[i] < |more| && more[places[i]] == Span(now[i], Next(now[i]), now[i]) {
      if i < |at| {
        assert places[i] == at[i] && now[i] == ps[i] && more[at[i]] == spans[at[i]];
      }
    }
    forall k | 0 <= k < |more| && more[k].path != [] ensures k in places {
      if k < |spans| {
        assert more[k] == spans[k];
        var i :| 0 <= i < |at| && at[i] == k;
        assert places[i] == k;
      }
    }
  }

  lemma OneGap(spans: seq<Span>, ps: seq<Key>, gap: Span)
    requires OneForEach(spans, ps) && gap.path == []
    ensures OneForEach(spans + [gap], ps)
  {
    hide Next;
    var at: seq<nat> :| OneEach(spans, ps, at);
    forall k | 0 <= k < |spans + [gap]| && (spans + [gap])[k].path != [] ensures k in at {
      assert k < |spans|;
      assert (spans + [gap])[k] == spans[k];
    }
    assert OneEach(spans + [gap], ps, at);
  }

  /** Whatever the prefixes, each has one child of its own, in their order, and all others are gaps. */
  lemma {:induction false} EachHasChild(path: Key, rangeStart: Key, rangeEnd: Key, ps: seq<Key>, n: nat)
    requires ps != [] && n <= |ps|
    ensures OneForEach(LayoutTo(path, rangeStart, rangeEnd, ps, n).0, ps[..n])
  {
    hide OneForEach, Next;
    if n == 0 {
      NoneYet(Span(if path == [] then rangeStart else [], ps[0], []));
    } else {
      EachHasChild(path, rangeStart, rangeEnd, ps, n - 1);
      var spans, p := LayoutTo(path, rangeStart, rangeEnd, ps, n - 1).0, ps[n - 1];
      var after := Behind(path, rangeEnd, ps, n - 1);
      assert ps[..n] == ps[..n - 1] + [p];
      OwnSpan(spans, ps[..n - 1], p);
      if after != Next(p) {
        OneGap(spans + [Span(p, Next(p), p)], ps[..n], Span(Next(p), after, []));
        assert spans + [Span(p, Next(p), p)] + [Span(Next(p), after, [])] == spans + [Span(p, Next(p), p), Span(Next(p), after, [])];
      }
    }
  }

  lemma NoneYet(s: Span)
    requires s.path == []
    ensures OneForEach([s], [])
  {
    assert OneEach([s], [], []);
  }

  /** What holds of the children up to group `n`. */
  ghost predicate TiledTo(path: Key, rangeStart: Key, rangeEnd: Key, ps: seq<Key>, n: nat, spans: seq<Span>, splits: seq<Key>)
    requires n <= |ps|
  {
    && Tiles(spans, splits) && 0 < |splits| <= |spans|
    && spans[0].path == [] && spans[0].start == (if path == [] then rangeStart else [])
    && (n < |ps| ==> |spans| == |splits| && splits[|splits| - 1] == ps[n])
    && (n == |ps| ==> Bounded(path, rangeStart, rangeEnd, spans, splits))
  }

  /** For good prefixes the children tile the node. */
  lemma {:induction false} GoodTiles(path: Key, rangeStart: Key, rangeEnd: Key, ps: seq<Key>, n: nat)
    requires ps != [] && n <= |ps| && GoodPrefixes(ps)
    ensures var (spans, splits) := LayoutTo(path, rangeStart, rangeEnd, ps, n);
            TiledTo(path, rangeStart, rangeEnd, ps, n, spans, splits)
  {
    hide Tiles, GoodPrefixes, Ascending, Less;
    if n == 0 {
      OneTile(Span(if path == [] then rangeStart else [], ps[0], []));
    } else {
      hide TiledTo, Next;
      GoodTiles(path, rangeStart, rangeEnd, ps, n - 1);
      var (spans, splits) := LayoutTo(path, rangeStart, rangeEnd, ps, n - 1);
      if Behind(path, rangeEnd, ps, n - 1) == Next(ps[n - 1]) {
        NextAdjoins(path, rangeStart, rangeEnd, ps, n, spans, splits);
      } else {
        NextLeavesGap(path, rangeStart, rangeEnd, ps, n, spans, splits);
      }
    }
  }

  lemma NextAdjoins(path: Key, rangeStart: Key, rangeEnd: Key, ps: seq<Key>, n: nat, spans: seq<Span>, splits: seq<Key>)
    requires 0 < n <= |ps| && GoodPrefixes(ps) && TiledTo(path, rangeStart, rangeEnd, ps, n - 1, spans, splits)
    requires Behind(path, rangeEnd, ps, n - 1) == Next(ps[n - 1])
    ensures var (p, end) := (ps[n - 1], Next(ps[n - 1]));
            TiledTo(path, rangeStart, rangeEnd, ps, n, spans + [Span(p, end, p)], splits + [end])
  {
    hide Tiles, GoodPrefixes, Ascending, Less, Next, SpanOk;
    GroupFits(ps, n - 1);
    TileMore(spans, splits, Span(ps[n - 1], Next(ps[n - 1]), ps[n - 1]));
  }

  lemma NextLeavesGap(path: Key, rangeStart: Key, rangeEnd: Key, ps: seq<Key>, n: nat, spans: seq<Span>, splits: seq<Key>)
    requires 0 < n <= |ps| && GoodPrefixes(ps) && TiledTo(path, rangeStart, rangeEnd, ps, n - 1, spans, splits)
    requires Behind(path, rangeEnd, ps, n - 1) != Next(ps[n - 1])
    ensures var (p, end, after) := (ps[n - 1], Next(ps[n - 1]), Behind(path, rangeEnd, ps, n - 1));
            TiledTo(path, rangeStart, rangeEnd, ps, n, spans + [Span(p, end, p), Span(end, after, [])],
                    splits + if n == |ps| then [end] else [end, after])
  {
    hide Tiles, GoodPrefixes, Ascending, Less, Next;
    var (p, end, after) := (ps[n - 1], Next(ps[n - 1]), Behind(path, rangeEnd, ps, n - 1));
    GroupFits(ps, n - 1);
    TileMore(spans, splits, Span(p, end, p));
    var (more, cuts) := (spans + [Span(p, end, p)], splits + [end]);
    assert spans + [Span(p, end, p), Span(end, after, [])] == more + [Span(end, after, [])];
    if n == |ps| {
      TileLast(more, cuts, Span(end, after, []));
    } else {
      GroupFollows(ps, n - 1);
      TileMore(more, cuts, Span(end, after, []));
      assert splits + [end, after] == cuts + [after];
    }
  }

  lemma OneTile(s: Span)
    requires s.path == []
    ensures Tiles([s], [s.end])
  {
  }

  lemma GroupFits(ps: seq<Key>, i: nat)
    requires GoodPrefixes(ps) && i < |ps|
    ensures Next(ps[i]) != [] && Less(ps[i], Next(ps[i])) && SpanOk(Span(ps[i], Next(ps[i]), ps[i]))
  {
    LessThanNext(ps[i]);
  }

  lemma GroupFollows(ps: seq<Key>, i: nat)
    requires GoodPrefixes(ps) && i < |ps| - 1
    ensures ps[i + 1] == Next(ps[i]) || Less(Next(ps[i]), ps[i + 1])
  {
    AfterRange(ps[i], ps[i + 1]);
    LessOrMore(Next(ps[i]), ps[i + 1]);
  }

  lemma EmptyIsLeast(k: Key)
    ensures !Less(k, [])
  {
  }

  // ---------- When every key is taken ----------

  /** The keys of a node with these bounds, relative to its path; a node with a path has none. */
  predicate InNode(rangeStart: Key, rangeEnd: Key, k: Key) {
    !Less(k, rangeStart) && (rangeEnd == [] || Less(k, rangeEnd))
  }

  /** A child takes a key: the key has the child's path, or lies in the gap. */
  predicate Takes(s: Span, k: Key) {
    IsPrefix(s.path, k) && (s.path == [] ==> InNode(s.start, s.end, k))
  }

  ghost predicate TakesAll(spans: seq<Span>, splits: seq<Key>, rangeStart: Key, rangeEnd: Key)
    requires spans != []
  {
    forall k: Key | InNode(rangeStart, rangeEnd, k) :: Takes(spans[At(splits, |spans|, k)], k)
  }

  /** The least key above everything that starts with `q`; none if `q` is all 0xFF. */
  function Carry(q: Key): Key {
    if q == [] then []
    else
      var c := Carry(q[1..]);
      if c != [] then [q[0]] + c else if q[0] < 255 then [q[0] + 1] else []
  }

  lemma LessCons(a: Key, b: Key)
    requires a != [] && b != []
    ensures Less(a, b) <==> a[0] < b[0] || (a[0] == b[0] && Less(a[1..], b[1..]))
  {
  }

  lemma PrefixCons(p: Key, k: Key)
    requires p != [] && k != []
    ensures IsPrefix(p, k) <==> p[0] == k[0] && IsPrefix(p[1..], k[1..])
  {
    assert p == [p[0]] + p[1..] && k == [k[0]] + k[1..];
  }

  lemma NothingBefore(q: Key)
    requires q != []
    ensures Less([], q) && IsPrefix([], q)
  {
  }

  lemma {:induction false} CarryIs(q: Key, k: Key)
    requires !Less(k, q)
    ensures IsPrefix(q, k) <==> Carry(q) == [] || Less(k, Carry(q))
  {
    hide Less, IsPrefix;
    if q == [] {
      NothingAtAll(k);
    } else {
      if k == [] {
        NothingBefore(q);
      }
      var c := Carry(q);
      LessCons(k, q);
      PrefixCons(q, k);
      if c != [] {
        LessCons(k, c);
      }
      if k[0] == q[0] {
        CarryIs(q[1..], k[1..]);
        EmptyIsLeast(k[1..]);
        assert Carry(q[1..]) != [] ==> c[1..] == Carry(q[1..]);
      } else {
        assert q[0] < k[0];
        assert c != [] && (c[0] == q[0] || c == [q[0] + 1]);
        assert c[0] != q[0] ==> c[1..] == [];
        EmptyIsLeast(k[1..]);
      }
    }
  }

  lemma NothingAtAll(k: Key)
    ensures IsPrefix([], k) && Carry([]) == []
  {
  }

  /** Where a child's keys end, seen from one that it takes. */
  function Limit(s: Span): Key {
    if s.path == [] then s.end else Carry(s.path)
  }

  lemma TakesUpTo(s: Span, a: Key, k: Key)
    requires Takes(s, a) && !Less(k, a)
    ensures Takes(s, k) <==> Limit(s) == [] || Less(k, Limit(s))
  {
    if s.path == [] {
      NotBelow(k, a, s.start);
    } else {
      PrefixIsNotAfter(s.path, a);
      NotBelow(k, a, s.path);
      CarryIs(s.path, k);
    }
  }

  lemma LessTransitive(a: Key, b: Key, c: Key)
    requires Less(a, b) && Less(b, c)
    ensures Less(a, c)
  {
    CompareTransitive(a, b, c);
  }

  lemma NotBelow(k: Key, a: Key, b: Key)
    requires !Less(k, a) && !Less(a, b)
    ensures !Less(k, b)
  {
    LessOrMore(k, a);
    LessOrMore(a, b);
    if b != a && a != k {
      CompareTransitive(b, a, k);
      LessOrMore(b, k);
    }
  }

  /** The places where the search can change its mind, and the end of the node. */
  function Bounds(splits: seq<Key>, rangeEnd: Key): seq<Key> {
    if rangeEnd == [] then splits else splits + [rangeEnd]
  }

  /** The child that `a` is sent to takes it, and everything from there to the next such place. */
  ghost predicate FitsFrom(spans: seq<Span>, splits: seq<Key>, rangeEnd: Key, a: Key)
    requires spans != []
  {
    var s := spans[At(splits, |spans|, a)];
    Takes(s, a) && (Limit(s) == [] || exists b :: b in Bounds(splits, rangeEnd) && Less(a, b) && !Less(Limit(s), b))
  }

  /** Only the start of the node and its split keys have to be looked at. */
  ghost predicate Routable(spans: seq<Span>, splits: seq<Key>, rangeStart: Key, rangeEnd: Key)
    requires spans != []
  {
    forall a | a in [rangeStart] + splits && InNode(rangeStart, rangeEnd, a) :: FitsFrom(spans, splits, rangeEnd, a)
  }

  /** The greatest of the places at or before `k`. */
  lemma {:induction false} LastPlace(places: seq<Key>, k: Key, start: Key) returns (a: Key)
    requires !Less(k, start)
    ensures a in [start] + places && !Less(k, a)
    ensures forall x | x in [start] + places && !Less(k, x) :: !Less(a, x)
  {
    if places == [] {
      a := start;
      LessOrMore(start, start);
    } else {
      var last := places[|places| - 1];
      a := LastPlace(places[..|places| - 1], k, start);
      assert forall x | x in [start] + places :: x in [start] + places[..|places| - 1] || x == last;
      if !Less(k, last) && Less(a, last) {
        forall x | x in [start] + places && !Less(k, x) ensures !Less(last, x) {
          LessOrMore(last, last);
          if x != last {
            LessOrMore(a, last);
            NotBelow(last, a, x);
          }
        }
        a := last;
      }
    }
  }

  /** A split sends every key of the node to a child that takes it, whatever the prefixes and in
      whatever order the split keys come out, if and only if the search does so at the start of the
      node and at each split key, up to the next. */
  lemma RoutesExactly(spans: seq<Span>, splits: seq<Key>, rangeStart: Key, rangeEnd: Key)
    requires spans != []
    ensures TakesAll(spans, splits, rangeStart, rangeEnd) <==> Routable(spans, splits, rangeStart, rangeEnd)
  {
    if Routable(spans, splits, rangeStart, rangeEnd) {
      forall k: Key | InNode(rangeStart, rangeEnd, k) ensures Takes(spans[At(splits, |spans|, k)], k) {
        RoutedFrom(spans, splits, rangeStart, rangeEnd, k);
      }
    }
    if TakesAll(spans, splits, rangeStart, rangeEnd) {
      forall a | a in [rangeStart] + splits && InNode(rangeStart, rangeEnd, a) ensures FitsFrom(spans, splits, rangeEnd, a) {
        RoutedAt(spans, splits, rangeStart, rangeEnd, a);
      }
    }
  }

  lemma RoutedFrom(spans: seq<Span>, splits: seq<Key>, rangeStart: Key, rangeEnd: Key, k: Key)
    requires spans != [] && Routable(spans, splits, rangeStart, rangeEnd) && InNode(rangeStart, rangeEnd, k)
    ensures Takes(spans[At(splits, |spans|, k)], k)
  {
    hide Takes, Limit, Less, Search;
    var a := LastPlace(splits, k, rangeStart);
    StartIsFirst(splits, rangeStart, a, k);
    forall x | x in Bounds(splits, rangeEnd) ensures Less(k, x) <==> Less(a, x) {
      SameSide(splits, rangeStart, rangeEnd, a, k, x);
    }
    assert InNode(rangeStart, rangeEnd, a) by {
      assert rangeEnd != [] ==> rangeEnd in Bounds(splits, rangeEnd);
    }
    assert forall x | x in splits :: x in Bounds(splits, rangeEnd);
    SearchSame(splits, k, a, 0, |splits|);
    assert FitsFrom(spans, splits, rangeEnd, a);
    var s := spans[At(splits, |spans|, a)];
    TakesUpTo(s, a, k);
    if Limit(s) != [] {
      var b :| b in Bounds(splits, rangeEnd) && Less(a, b) && !Less(Limit(s), b);
      BelowLimit(k, b, Limit(s));
    }
  }

  lemma BelowLimit(k: Key, b: Key, limit: Key)
    requires Less(k, b) && !Less(limit, b)
    ensures Less(k, limit)
  {
    LessOrMore(limit, b);
    if limit != b {
      CompareTransitive(k, b, limit);
    }
  }

  lemma StartIsFirst(splits: seq<Key>, start: Key, a: Key, k: Key)
    requires a in [start] + splits && !Less(k, start)
    requires forall x | x in [start] + splits && !Less(k, x) :: !Less(a, x)
    ensures !Less(a, start)
  {
    assert start in [start] + splits;
  }

  lemma SameSide(splits: seq<Key>, start: Key, rangeEnd: Key, a: Key, k: Key, x: Key)
    requires InNode(start, rangeEnd, k) && x in Bounds(splits, rangeEnd) && !Less(k, a)
    requires forall y | y in [start] + splits && !Less(k, y) :: !Less(a, y)
    ensures Less(k, x) <==> Less(a, x)
  {
    assert x in splits ==> x in [start] + splits;
    if Less(k, x) && !Less(a, x) {
      NotBelow(k, a, x);
    }
  }

  /** From a place where all keys are taken: no key before the next place is beyond the limit. */
  lemma RoutedAt(spans: seq<Span>, splits: seq<Key>, rangeStart: Key, rangeEnd: Key, a: Key)
    requires spans != [] && TakesAll(spans, splits, rangeStart, rangeEnd) && InNode(rangeStart, rangeEnd, a)
    ensures FitsFrom(spans, splits, rangeEnd, a)
  {
    hide Takes, Limit, Less, Search;
    var s := spans[At(splits, |spans|, a)];
    assert Takes(s, a);
    var k := Limit(s);
    LessOrMore(a, a);
    TakesUpTo(s, a, a);
    if k != [] && forall b | b in Bounds(splits, rangeEnd) && Less(a, b) :: Less(k, b) {
      LessOrMore(a, k);
      forall x | x in Bounds(splits, rangeEnd) ensures Less(k, x) <==> Less(a, x) {
        if Less(k, x) {
          LessTransitive(a, k, x);
        }
      }
      assert forall x | x in splits :: x in Bounds(splits, rangeEnd);
      assert rangeEnd != [] ==> rangeEnd in Bounds(splits, rangeEnd);
      NotBelow(k, a, rangeStart);
      assert InNode(rangeStart, rangeEnd, k);
      SearchSame(splits, k, a, 0, |splits|);
      TakesUpTo(s, a, k);
      LessOrMore(k, k);
    }
  }

  /** Whatever tiles a node's keys routes them. */
  lemma TilesRoute(path: Key, rangeStart: Key, rangeEnd: Key, spans: seq<Span>, splits: seq<Key>, k: Key)
    requires Tiles(spans, splits) && Bounded(path, rangeStart, rangeEnd, spans, splits)
    requires path == [] ==> !Less(k, rangeStart) && (rangeEnd == [] || Less(k, rangeEnd))
    ensures var s := spans[At(splits, |spans|, k)];
            IsPrefix(s.path, k) && (s.path == [] ==> !Less(k, s.start) && (s.end == [] || Less(k, s.end)))
  {
    hide Less, Search;
    SearchIsCell(splits, k, 0, |splits|);
    var i := Cell(splits, k);
    EmptyIsLeast(k);
    if i == |splits| {
      LessOrMore(splits[|splits| - 1], k);
    } else {
      var s := spans[i];
      if i == 0 {
        assert s.path == [];
      } else if s.path != [] {
        PrefixRange(s.path, k);
      }
    }
  }

  /** A key of the node that starts with a prefix goes to that prefix's child, and any other to a gap. */
  ghost predicate GroupsReached(path: Key, rangeStart: Key, rangeEnd: Key, ps: seq<Key>, spans: seq<Span>, splits: seq<Key>) {
    spans != [] && forall k: Key | path == [] ==> InNode(rangeStart, rangeEnd, k) ::
      var s := spans[At(splits, |spans|, k)];
      && (forall i | 0 <= i < |ps| && IsPrefix(ps[i], k) :: s.path == ps[i])
      && (s.path != [] ==> s.path in ps && IsPrefix(s.path, k))
  }

  lemma InNodeIs(rangeStart: Key, rangeEnd: Key, k: Key)
    ensures InNode(rangeStart, rangeEnd, k) ==> !Less(k, rangeStart) && (rangeEnd == [] || Less(k, rangeEnd))
  {
  }

  lemma SearchFindsCell(splits: seq<Key>, k: Key)
    requires Ascending(splits)
    ensures Search(splits, k, 0, |splits|) == Cell(splits, k)
  {
    SearchIsCell(splits, k, 0, |splits|);
  }

  lemma GroupReached(path: Key, rangeStart: Key, rangeEnd: Key, ps: seq<Key>, spans: seq<Span>, splits: seq<Key>, at: seq<nat>,
                     i: nat, k: Key)
    requires Tiles(spans, splits) && Bounded(path, rangeStart, rangeEnd, spans, splits) && OneEach(spans, ps, at)
    requires i < |ps| && Proper(ps[i]) && IsPrefix(ps[i], k)
    ensures At(splits, |spans|, k) == at[i]
  {
    hide Less, Search, Ascending, Next, IsPrefix;
    var t := at[i];
    PrefixRange(ps[i], k);
    assert 0 < t < |splits|;
    assert splits[t] == Next(ps[i]) && splits[t - 1] == ps[i];
    SplitSides(splits, t - 1, k);
    CellIs(splits, k, t);
    SearchFindsCell(splits, k);
  }

  lemma ReachedBy(path: Key, rangeStart: Key, rangeEnd: Key, ps: seq<Key>, spans: seq<Span>, splits: seq<Key>, at: seq<nat>, k: Key)
    requires Tiles(spans, splits) && Bounded(path, rangeStart, rangeEnd, spans, splits) && OneEach(spans, ps, at)
    requires GoodPrefixes(ps) && (path == [] ==> InNode(rangeStart, rangeEnd, k))
    ensures var s := spans[At(splits, |spans|, k)];
            && (forall i | 0 <= i < |ps| && IsPrefix(ps[i], k) :: s.path == ps[i])
            && (s.path != [] ==> s.path in ps && IsPrefix(s.path, k))
  {
    hide Less, At, IsPrefix, Tiles, Bounded, Next;
    InNodeIs(rangeStart, rangeEnd, k);
    TilesRoute(path, rangeStart, rangeEnd, spans, splits, k);
    forall i | 0 <= i < |ps| && IsPrefix(ps[i], k) ensures At(splits, |spans|, k) == at[i] {
      GroupReached(path, rangeStart, rangeEnd, ps, spans, splits, at, i, k);
    }
    var a := At(splits, |spans|, k);
    if spans[a].path != [] {
      assert a in at;
    }
  }

  /** Every prefix gets exactly the keys that start with it. */
  lemma GroupsAreReached(path: Key, rangeStart: Key, rangeEnd: Key, ps: seq<Key>)
    requires ps != [] && GoodPrefixes(ps)
    ensures var (spans, splits) := LayoutOf(path, rangeStart, rangeEnd, ps);
            GroupsReached(path, rangeStart, rangeEnd, ps, spans, splits)
  {
    hide LayoutTo, Tiles, Bounded, Less, At, InNode, GoodPrefixes, OneEach, IsPrefix;
    var (spans, splits) := LayoutOf(path, rangeStart, rangeEnd, ps);
    GoodTiles(path, rangeStart, rangeEnd, ps, |ps|);
    EachHasChild(path, rangeStart, rangeEnd, ps, |ps|);
    assert ps[..|ps|] == ps;
    var at: seq<nat> :| OneEach(spans, ps, at);
    forall k: Key | path == [] ==> InNode(rangeStart, rangeEnd, k)
      ensures var s := spans[At(splits, |spans|, k)];
              && (forall i | 0 <= i < |ps| && IsPrefix(ps[i], k) :: s.path == ps[i])
              && (s.path != [] ==> s.path in ps && IsPrefix(s.path, k))
    {
      ReachedBy(path, rangeStart, rangeEnd, ps, spans, splits, at, k);
    }
  }

  lemma LayoutHolds(path: Key, rangeStart: Key, rangeEnd: Key, ps: seq<Key>)
    requires ps != []
    ensures var (spans, splits) := LayoutOf(path, rangeStart, rangeEnd, ps);
            OneForEach(spans, ps) && (GoodPrefixes(ps) ==> GroupsReached(path, rangeStart, rangeEnd, ps, spans, splits))
  {
    hide OneForEach, GoodPrefixes, GroupsReached, LayoutTo;
    EachHasChild(path, rangeStart, rangeEnd, ps, |ps|);
    assert ps[..|ps|] == ps;
    if GoodPrefixes(ps) {
      GroupsAreReached(path, rangeStart, rangeEnd, ps);
    }
  }

  method Layout(path: Key, rangeStart: Key, rangeEnd: Key, ps: seq<Key>) returns (spans: seq<Span>, splits: seq<Key>)
    requires ps != []
    ensures (spans, splits) == LayoutOf(path, rangeStart, rangeEnd, ps)
    ensures OneForEach(spans, ps)
    ensures GoodPrefixes(ps) ==> GroupsReached(path, rangeStart, rangeEnd, ps, spans, splits)
  {
    hide OneForEach, GoodPrefixes, GroupsReached, Next;
    LayoutHolds(path, rangeStart, rangeEnd, ps);
    spans, splits := [Span(if path == [] then rangeStart else [], ps[0], [])], [ps[0]];
    for i := 0 to |ps|
      invariant (spans, splits) == LayoutTo(path, rangeStart, rangeEnd, ps, i)
    {
      var end := NextKeySameLength(ps[i]);
      ghost var (was, cuts) := (spans, splits);
      spans, splits := spans + [Span(ps[i], end, ps[i])], splits + [end];
      var after: Key;
      if i == |ps| - 1 {
        after := if path == [] then rangeEnd else [];
      } else {
        after := ps[i + 1];
      }
      if after != end {
        spans := spans + [Span(end, after, [])];
        assert spans == was + [Span(ps[i], end, ps[i]), Span(end, after, [])];
        if i != |ps| - 1 {
          splits := splits + [after];
          assert splits == cuts + [end, after];
        }
      }
    }
  }

  // ---------- A split on a single prefix ----------

  function Zeros(n: nat): (z: Key)
    ensures |z| == n
  {
    if n == 0 then [] else [0] + Zeros(n - 1)
  }

  lemma {:induction false} ZerosMore(n: nat)
    ensures Zeros(n) + [0] == Zeros(n + 1)
  {
    if n > 0 {
      ZerosMore(n - 1);
      assert Zeros(n) + [0] == [0] + (Zeros(n - 1) + [0]);
    }
  }

  lemma {:induction false} CarryEnd(front: Key, x: Byte)
    ensures Carry(front + [x]) == if x < 255 then front + [x + 1] else Carry(front)
  {
    if front == [] {
      assert front + [x] == [x] && [x][1..] == [];
    } else {
      assert (front + [x])[1..] == front[1..] + [x];
      CarryEnd(front[1..], x);
      assert x < 255 ==> [front[0]] + (front[1..] + [x + 1]) == front + [x + 1];
    }
  }

  lemma NextEnd(front: Key, x: Byte)
    ensures Next(front + [x]) == if x < 255 then front + [x + 1] else Next(front) + [0]
  {
    assert (front + [x])[..|front|] == front;
  }

  /** The next key is the carry followed by zeros, or all zeros when there is no carry. */
  lemma {:induction false} NextIsCarry(p: Key)
    ensures |Carry(p)| <= |p| && Next(p) == Carry(p) + Zeros(|p| - |Carry(p)|)
  {
    hide Carry, Next, Zeros;
    if p == [] {
      NothingCarried();
    } else {
      var front, x := p[..|p| - 1], p[|p| - 1];
      assert p == front + [x];
      CarryEnd(front, x);
      NextEnd(front, x);
      if x == 255 {
        NextIsCarry(front);
        var n := |front| - |Carry(front)|;
        ZerosMore(n);
        assert (Carry(front) + Zeros(n)) + [0] == Carry(front) + (Zeros(n) + [0]);
      } else {
        assert Carry(p) + Zeros(0) == Carry(p);
      }
    }
  }

  lemma NothingCarried()
    ensures Carry([]) == [] && Next([]) == [] + Zeros(0)
  {
  }

  /** Between a key and the key with zeros behind it there are only those with fewer zeros. */
  lemma {:induction false} ZeroGap(c: Key, k: Key, n: nat)
    requires !Less(k, c) && Less(k, c + Zeros(n))
    ensures |c| <= |k| < |c| + n && k == c + Zeros(|k| - |c|)
    decreases |c| + n
  {
    if c == [] {
      assert c + Zeros(n) == Zeros(n);
      if k != [] {
        assert k[0] == 0;
        assert [] + Zeros(n - 1) == Zeros(n)[1..];
        ZeroGap([], k[1..], n - 1);
        assert k == [0] + k[1..];
      }
    } else {
      assert (c + Zeros(n))[1..] == c[1..] + Zeros(n);
      ZeroGap(c[1..], k[1..], n);
      assert k == [k[0]] + k[1..] && c == [c[0]] + c[1..];
    }
  }

  lemma {:induction false} FewerZeros(c: Key, m: nat, n: nat)
    requires m < n
    ensures !Less(c + Zeros(m), c) && Less(c + Zeros(m), c + Zeros(n))
    decreases |c| + n
  {
    hide Less;
    var a, b := c + Zeros(m), c + Zeros(n);
    if c == [] {
      assert a == Zeros(m) && b == Zeros(n);
      EmptyIsLeast(a);
      if m > 0 {
        FewerZeros([], m - 1, n - 1);
        assert [] + Zeros(m - 1) == a[1..] && [] + Zeros(n - 1) == b[1..];
        LessCons(a, b);
      } else {
        NothingBefore(b);
      }
    } else {
      assert a[1..] == c[1..] + Zeros(m) && b[1..] == c[1..] + Zeros(n);
      FewerZeros(c[1..], m, n);
      LessCons(a, c);
      LessCons(a, b);
    }
  }

  lemma {:induction false} CarryAbove(p: Key)
    ensures Carry(p) != [] ==> Less(p, Carry(p))
  {
    if p != [] {
      CarryAbove(p[1..]);
      assert Carry(p[1..]) != [] ==> ([p[0]] + Carry(p[1..]))[1..] == Carry(p[1..]);
    }
  }

  /** A key that slips through the end of a prefix's range: the carry, with too few zeros behind it. */
  predicate Slips(p: Key, k: Key) {
    var c := Carry(p);
    c != [] && |c| <= |k| < |p| && k == c + Zeros(|k| - |c|)
  }

  /** The keys from a prefix up to the next key that do not start with it are those that slip. */
  lemma SlipsExactly(p: Key, k: Key)
    requires !Less(k, p) && Less(k, Next(p))
    ensures IsPrefix(p, k) <==> !Slips(p, k)
  {
    NextIsCarry(p);
    CarryIs(p, k);
    var c := Carry(p);
    SlipsAbove(p, k);
    if c != [] && !Less(k, c) {
      ZeroGap(c, k, |p| - |c|);
    }
  }

  lemma SlipsAbove(p: Key, k: Key)
    ensures Slips(p, k) ==> !Less(k, Carry(p))
  {
    if Slips(p, k) {
      var m := |k| - |Carry(p)|;
      FewerZeros(Carry(p), m, m + 1);
    }
  }

  lemma SlipsInRange(p: Key, k: Key)
    requires Slips(p, k)
    ensures !Less(k, p) && Less(k, Next(p))
  {
    NextIsCarry(p);
    CarryAbove(p);
    var c := Carry(p);
    FewerZeros(c, |k| - |c|, |p| - |c|);
    LessOrMore(p, c);
    NotBelow(k, c, p);
  }

  /** Where a key goes in a split on one prefix. */
  lemma SingleAt(path: Key, rangeStart: Key, rangeEnd: Key, p: Key, k: Key)
    ensures var (spans, splits) := LayoutOf(path, rangeStart, rangeEnd, [p]);
            && splits == [p, Next(p)] && |spans| >= 2
            && spans[0] == Span(if path == [] then rangeStart else [], p, []) && spans[1] == Span(p, Next(p), p)
            && (|spans| == 2 || (|spans| == 3 && spans[2] == Span(Next(p), if path == [] then rangeEnd else [], [])))
            && (|spans| == 2 <==> Next(p) == if path == [] then rangeEnd else [])
            && At(splits, |spans|, k) == if !Less(k, Next(p)) then |spans| - 1 else if Less(k, p) then 0 else 1
  {
    var (spans, splits) := LayoutOf(path, rangeStart, rangeEnd, [p]);
    assert LayoutTo(path, rangeStart, rangeEnd, [p], 0) == ([Span(if path == [] then rangeStart else [], p, [])], [p]);
    assert splits == [p, Next(p)];
    assert Search(splits, k, 0, 2) == if Less(k, splits[1]) then Search(splits, k, 0, 1) else Search(splits, k, 2, 2);
    assert Search(splits, k, 0, 1) == if Less(k, splits[0]) then Search(splits, k, 0, 0) else Search(splits, k, 1, 1);
  }

  /** Splitting a node on one prefix, whatever its bounds and path, sends some key to a child that does
      not take it exactly when the prefix ends in 0xFF without being all 0xFF and one of the keys that
      slip through is a key of the node. */
  lemma SingleSplitRoutesExactly(path: Key, rangeStart: Key, rangeEnd: Key, p: Key)
    ensures var (spans, splits) := LayoutOf(path, rangeStart, rangeEnd, [p]);
            var (start, end) := if path == [] then (rangeStart, rangeEnd) else ([], []);
            TakesAll(spans, splits, start, end) <==> !exists k :: Slips(p, k) && InNode(start, end, k)
  {
    hide Less, LayoutOf, At, Slips, Next;
    var (spans, splits) := LayoutOf(path, rangeStart, rangeEnd, [p]);
    var (start, end) := if path == [] then (rangeStart, rangeEnd) else ([], []);
    if exists k :: Slips(p, k) && InNode(start, end, k) {
      var k :| Slips(p, k) && InNode(start, end, k);
      SlipsInRange(p, k);
      SlipsExactly(p, k);
      SingleAt(path, rangeStart, rangeEnd, p, k);
      assert !IsPrefix(spans[At(splits, |spans|, k)].path, k);
    } else {
      forall k: Key | InNode(start, end, k) ensures Takes(spans[At(splits, |spans|, k)], k) {
        SingleAt(path, rangeStart, rangeEnd, p, k);
        EmptyIsLeast(k);
        NextEmpty(p);
        if Less(k, Next(p)) && !Less(k, p) {
          SlipsExactly(p, k);
        }
      }
    }
  }

  lemma NextEmpty(p: Key)
    ensures Next(p) == [] <==> p == []
  {
  }

  /** The prefixes through which keys slip are those that end in 0xFF and have another byte. */
  lemma {:induction false} SlipsWhen(p: Key)
    ensures (exists k :: Slips(p, k)) <==> p != [] && p[|p| - 1] == 255 && exists i :: 0 <= i < |p| && p[i] < 255
  {
    hide Carry, Next;
    var c := Carry(p);
    CarryNone(p);
    NextIsCarry(p);
    if p != [] {
      var front, x := p[..|p| - 1], p[|p| - 1];
      assert p == front + [x];
      CarryEnd(front, x);
      NextIsCarry(front);
      if c != [] && x == 255 {
        assert c + Zeros(0) == c;
        assert Slips(p, c);
      }
    }
  }

  lemma {:induction false} CarryNone(p: Key)
    ensures Carry(p) == [] <==> forall i | 0 <= i < |p| :: p[i] == 255
  {
    if p != [] {
      CarryNone(p[1..]);
      assert forall i | 1 <= i < |p| :: p[i] == p[1..][i - 1];
      if Carry(p[1..]) != [] {
        var i :| 0 <= i < |p[1..]| && p[1..][i] != 255;
        assert p[i + 1] != 255;
      }
    }
  }
}
