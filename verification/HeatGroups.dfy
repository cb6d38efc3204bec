/** heatLSM/common.go: the groups of sampled keys that a leaf can split on, and when a choice of
    them has good prefixes. */
module HeatGroups {
  import opened HeatRouting

  datatype Group = Group(start: nat, end: nat, prefix: Key)

  /** getByteAt: -1 past the end. */
  function ByteAt(k: Key, i: nat): int {
    if i < |k| then k[i] else -1
  }

  predicate InOrder(keys: seq<Key>) {
    forall i, j | 0 <= i < j < |keys| :: !Less(keys[j], keys[i])
  }

  function Shared(a: Key, b: Key): (n: nat)
    ensures n <= |a| && n <= |b| && a[..n] == b[..n]
    ensures n < |a| && n < |b| ==> a[n] != b[n]
  {
    if a == [] || b == [] || a[0] != b[0] then 0
    else
      var n := Shared(a[1..], b[1..]);
      assert a[..n + 1] == [a[0]] + a[1..][..n] && b[..n + 1] == [b[0]] + b[1..][..n];
      n + 1
  }

  method CommonPrefixLen(a: Key, b: Key) returns (n: nat)
    ensures n == Shared(a, b)
  {
    var most := if |b| < |a| then |b| else |a|;
    n := 0;
    while n < most
      invariant n <= most && Shared(a, b) == n + Shared(a[n..], b[n..])
    {
      if a[n] != b[n] {
        return;
      }
      assert a[n..][1..] == a[n + 1..] && b[n..][1..] == b[n + 1..];
      n := n + 1;
    }
  }

  /** The longest common prefix of all the keys. */
  function Common(keys: seq<Key>): Key
    requires keys != []
  {
    if |keys| == 1 then keys[0]
    else
      var front := Common(keys[..|keys| - 1]);
      front[..Shared(front, keys[|keys| - 1])]
  }

  method CalcCommonPrefix(keys: seq<Key>) returns (prefix: Key)
    requires keys != []
    ensures prefix == Common(keys)
  {
    prefix := keys[0];
    for i := 1 to |keys|
      invariant prefix == Common(keys[..i])
    {
      assert keys[..i + 1][..i] == keys[..i];
      var n := CommonPrefixLen(prefix, keys[i]);
      prefix := prefix[..n];
      if |prefix| == 0 {
        CommonStaysEmpty(keys, i + 1);
        return;
      }
    }
    assert keys[..|keys|] == keys;
  }

  lemma {:induction false} CommonStaysEmpty(keys: seq<Key>, n: nat)
    requires 0 < n <= |keys| && Common(keys[..n]) == []
    ensures Common(keys) == []
    decreases |keys| - n
  {
    if n < |keys| {
      assert keys[..n + 1][..n] == keys[..n];
      CommonStaysEmpty(keys, n + 1);
    } else {
      assert keys[..n] == keys;
    }
  }

  lemma {:induction false} SharedMost(q: Key, a: Key, b: Key)
    requires IsPrefix(q, a) && IsPrefix(q, b)
    ensures |q| <= Shared(a, b)
  {
    if q != [] {
      SharedMost(q[1..], a[1..], b[1..]);
    }
  }

  /** It is a prefix of every key, and every other common prefix is a prefix of it. */
  lemma {:induction false} CommonIsLongest(keys: seq<Key>, q: Key)
    requires keys != []
    ensures forall i | 0 <= i < |keys| :: IsPrefix(Common(keys), keys[i])
    ensures (forall i | 0 <= i < |keys| :: IsPrefix(q, keys[i])) ==> IsPrefix(q, Common(keys))
  {
    if |keys| > 1 {
      var front, last := keys[..|keys| - 1], keys[|keys| - 1];
      CommonIsLongest(front, q);
      forall i | 0 <= i < |keys| ensures IsPrefix(Common(keys), keys[i]) {
        assert i < |front| ==> IsPrefix(Common(front), front[i]);
      }
      if forall i | 0 <= i < |keys| :: IsPrefix(q, keys[i]) {
        assert forall i | 0 <= i < |front| :: front[i] == keys[i];
        SharedMost(q, Common(front), last);
      }
    }
  }

  // ---------- The groups ----------

  /** A stretch of keys with the same byte behind the common prefix, as long as can be. */
  ghost predicate GroupOk(keys: seq<Key>, base: nat, g: Group) {
    && g.start < g.end <= |keys| && g.prefix == Common(keys[g.start..g.end])
    && (forall i | g.start <= i < g.end :: ByteAt(keys[i], base) == ByteAt(keys[g.start], base))
    && (g.end < |keys| ==> ByteAt(keys[g.end - 1], base) != ByteAt(keys[g.end], base))
  }

  /** The groups follow each other from the first key on. */
  ghost predicate Grouped(keys: seq<Key>, base: nat, groups: seq<Group>, upTo: nat) {
    && (forall g | 0 <= g < |groups| :: GroupOk(keys, base, groups[g]))
    && (forall g | 0 <= g < |groups| :: groups[g].start == if g == 0 then 0 else groups[g - 1].end)
    && upTo == if groups == [] then 0 else groups[|groups| - 1].end
  }

  lemma OneMoreGroup(keys: seq<Key>, base: nat, groups: seq<Group>, g: Group)
    requires Grouped(keys, base, groups, g.start) && GroupOk(keys, base, g)
    ensures Grouped(keys, base, groups + [g], g.end)
  {
  }

  /** The grouping loop of FindTopNPrefixGroups. */
  method FindGroups(keys: seq<Key>) returns (groups: seq<Group>, base: nat)
    requires keys != []
    ensures base == Shared(keys[0], keys[|keys| - 1])
    ensures Grouped(keys, base, groups, |keys|)
  {
    hide Grouped, Common;
    base := CommonPrefixLen(keys[0], keys[|keys| - 1]);
    groups := [];
    var start := 0;
    NoGroups(keys, base);
    for i := 1 to |keys|
      invariant start < i && Grouped(keys, base, groups, start)
      invariant forall k | start <= k < i :: ByteAt(keys[k], base) == ByteAt(keys[start], base)
    {
      if ByteAt(keys[i - 1], base) != ByteAt(keys[i], base) {
        var prefix := CalcCommonPrefix(keys[start..i]);
        OneMoreGroup(keys, base, groups, Group(start, i, prefix));
        groups := groups + [Group(start, i, prefix)];
        start := i;
      }
    }
    var prefix := CalcCommonPrefix(keys[start..]);
    assert keys[start..] == keys[start..|keys|];
    OneMoreGroup(keys, base, groups, Group(start, |keys|, prefix));
    groups := groups + [Group(start, |keys|, prefix)];
  }

  lemma NoGroups(keys: seq<Key>, base: nat)
    ensures Grouped(keys, base, [], 0)
  {
  }

  // ---------- Which choices are good ----------

  /** Between two strings that share a start, everything shares it. */
  lemma {:induction false} Between(a: Key, b: Key, c: Key, n: nat)
    requires !Less(b, a) && !Less(c, b) && n <= |a| && n <= |c| && a[..n] == c[..n]
    ensures n <= |b| && b[..n] == a[..n]
    decreases n
  {
    if n > 0 {
      assert a[..n][0] == c[..n][0];
      assert b != [] && b[0] == a[0];
      assert a[..n][1..] == a[1..][..n - 1] && c[..n][1..] == c[1..][..n - 1];
      Between(a[1..], b[1..], c[1..], n - 1);
      assert b[..n] == [b[0]] + b[1..][..n - 1] && a[..n] == [a[0]] + a[1..][..n - 1];
    }
  }

  /** The byte behind the common prefix never falls. */
  lemma {:induction false} BytesRise(a: Key, b: Key, n: nat)
    requires !Less(b, a) && n <= |a| && n <= |b| && a[..n] == b[..n]
    ensures ByteAt(a, n) <= ByteAt(b, n)
    decreases n
  {
    if n > 0 {
      assert a[0] == a[..n][0] == b[..n][0] == b[0];
      assert a[..n][1..] == a[1..][..n - 1] && b[..n][1..] == b[1..][..n - 1];
      BytesRise(a[1..], b[1..], n - 1);
    }
  }

  /** Strings that differ first at `n`. */
  lemma {:induction false} FirstDifference(a: Key, b: Key, n: nat)
    requires n < |a| && n < |b| && a[..n] == b[..n] && a[n] < b[n]
    ensures Less(a, b) && !IsPrefix(a, b)
    decreases n
  {
    if n > 0 {
      assert a[0] == a[..n][0] == b[..n][0] == b[0];
      assert a[..n][1..] == a[1..][..n - 1] && b[..n][1..] == b[1..][..n - 1];
      FirstDifference(a[1..], b[1..], n - 1);
    }
  }

  lemma AllShare(keys: seq<Key>, base: nat, i: nat)
    requires InOrder(keys) && i < |keys| && base == Shared(keys[0], keys[|keys| - 1])
    ensures base <= |keys[i]| && keys[i][..base] == keys[0][..base]
  {
    LessOrMore(keys[0], keys[0]);
    LessOrMore(keys[i], keys[i]);
    Between(keys[0], keys[i], keys[|keys| - 1], base);
  }

  function ByteOf(keys: seq<Key>, base: nat, g: Group): int
    requires g.start < |keys|
  {
    ByteAt(keys[g.start], base)
  }

  /** What a group's prefix looks like: the common start, and the group's byte if it has one. */
  lemma PrefixOf(keys: seq<Key>, base: nat, g: Group)
    requires InOrder(keys) && keys != [] && base == Shared(keys[0], keys[|keys| - 1]) && GroupOk(keys, base, g)
    ensures base <= |g.prefix| && g.prefix[..base] == keys[0][..base] && ByteAt(g.prefix, base) == ByteOf(keys, base, g)
  {
    hide Common, Shared, Less;
    var part, first := keys[g.start..g.end], keys[g.start];
    AllShare(keys, base, g.start);
    var n := if ByteOf(keys, base, g) >= 0 then base + 1 else base;
    forall i | 0 <= i < |part| ensures IsPrefix(first[..n], part[i]) {
      AllShare(keys, base, g.start + i);
      assert part[i] == keys[g.start + i];
      assert ByteAt(part[i], base) == ByteAt(first, base);
      assert n > base ==> part[i][..n] == part[i][..base] + [part[i][base]] && first[..n] == first[..base] + [first[base]];
    }
    CommonIsLongest(part, first[..n]);
    assert IsPrefix(Common(part), part[0]) && part[0] == first;
    assert g.prefix[..base] == first[..n][..base];
  }

  lemma {:induction false} BytesAscend(keys: seq<Key>, base: nat, groups: seq<Group>, g: nat, h: nat)
    requires InOrder(keys) && keys != [] && base == Shared(keys[0], keys[|keys| - 1])
    requires Grouped(keys, base, groups, |keys|) && g < h < |groups|
    ensures GroupOk(keys, base, groups[g]) && GroupOk(keys, base, groups[h])
    ensures ByteOf(keys, base, groups[g]) < ByteOf(keys, base, groups[h])
    decreases h - g
  {
    if g + 1 < h {
      BytesAscend(keys, base, groups, g, h - 1);
    }
    var before := groups[h - 1];
    assert GroupOk(keys, base, before) && groups[h].start == before.end < |keys|;
    AllShare(keys, base, before.end - 1);
    AllShare(keys, base, before.end);
    BytesRise(keys[before.end - 1], keys[before.end], base);
  }

  /** The prefixes of the chosen groups, in order. */
  function Chosen(groups: seq<Group>, keep: seq<nat>): seq<Key>
    requires forall i | 0 <= i < |keep| :: keep[i] < |groups|
  {
    seq(|keep|, i requires 0 <= i < |keep| => groups[keep[i]].prefix)
  }

  /** Whichever groups are chosen, whatever the counts: their prefixes tile the node's keys as they
      stand exactly if none is empty or ends in 0xFF, and the group of the samples that are no more
      than the common prefix of all is not chosen together with another. A choice with good prefixes
      always routes; which others do is what RoutesExactly decides. */
  lemma ChoiceIsGoodExactly(keys: seq<Key>, base: nat, groups: seq<Group>, keep: seq<nat>)
    requires InOrder(keys) && keys != [] && base == Shared(keys[0], keys[|keys| - 1]) && Grouped(keys, base, groups, |keys|)
    requires (forall i | 0 <= i < |keep| :: keep[i] < |groups|) && forall i, j | 0 <= i < j < |keep| :: keep[i] < keep[j]
    ensures GoodPrefixes(Chosen(groups, keep)) <==>
            && (forall i | 0 <= i < |keep| :: Proper(groups[keep[i]].prefix))
            && (|keep| > 1 ==> ByteAt(groups[keep[0]].prefix, base) >= 0)
  {
    hide Grouped, InOrder, Shared, Less, Proper, ByteAt, IsPrefix;
    var ps := Chosen(groups, keep);
    forall i, j | 0 <= i < j < |ps|
      ensures Less(ps[i], ps[j]) && !IsPrefix(ps[i], ps[j]) <==> ByteAt(ps[i], base) >= 0
      ensures i > 0 ==> ByteAt(ps[i], base) >= 0
    {
      TwoGroups(keys, base, groups, keep[i], keep[j]);
      if i > 0 {
        TwoGroups(keys, base, groups, keep[0], keep[i]);
      }
    }
    assert forall i | 0 <= i < |keep| :: ps[i] == groups[keep[i]].prefix;
    if |keep| > 1 {
      TwoGroups(keys, base, groups, keep[0], keep[1]);
      assert Less(ps[0], ps[1]) && !IsPrefix(ps[0], ps[1]) <==> ByteAt(ps[0], base) >= 0;
    }
  }

  lemma TwoGroups(keys: seq<Key>, base: nat, groups: seq<Group>, g: nat, h: nat)
    requires InOrder(keys) && keys != [] && base == Shared(keys[0], keys[|keys| - 1])
    requires Grouped(keys, base, groups, |keys|) && g < h < |groups|
    ensures var p, q := groups[g].prefix, groups[h].prefix;
            && (Less(p, q) && !IsPrefix(p, q) <==> ByteAt(p, base) >= 0)
            && ByteAt(q, base) >= 0
  {
    hide Grouped, InOrder, Shared, GroupOk;
    BytesAscend(keys, base, groups, g, h);
    PrefixOf(keys, base, groups[g]);
    PrefixOf(keys, base, groups[h]);
    var p, q := groups[g].prefix, groups[h].prefix;
    if ByteAt(p, base) >= 0 {
      FirstDifference(p, q, base);
    } else {
      assert p == q[..base];
    }
  }
}
