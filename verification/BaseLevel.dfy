/** levels.go, levelTargets: where level 0 is compacted to. The comment there says the base level
    is the first level with data; the sizes alone do not ensure it. Here is when it is, and what that
    means for the order of the levels; `LsmHarm` shows what it can do to reads. */
module BaseLevel {
  import opened Keys
  import opened Compaction
  import opened Snapshots
  import opened Lsm
  import opened LsmSafety
  import opened LsmReads

  datatype Sizing = Sizing(baseLevelSize: nat, multiplier: nat)

  predicate SizingOk(o: Sizing) {
    o.multiplier >= 1
  }

  // ---------- The computation ----------

  /** The size that level `i` should have, before the adjustment upwards. */
  function Scaled(o: Sizing, sizes: seq<nat>, i: nat): nat
    requires SizingOk(o) && 1 <= i < |sizes|
    decreases |sizes| - i
  {
    if i == |sizes| - 1 then sizes[i] else Scaled(o, sizes, i + 1) / o.multiplier
  }

  function Target(o: Sizing, sizes: seq<nat>, i: nat): nat
    requires SizingOk(o) && 1 <= i < |sizes|
  {
    var size := Scaled(o, sizes, i);
    if size < o.baseLevelSize then o.baseLevelSize else size
  }

  lemma {:induction false} ScaledShrinks(o: Sizing, sizes: seq<nat>, i: nat, j: nat)
    requires SizingOk(o) && 1 <= i <= j < |sizes|
    ensures Scaled(o, sizes, i) <= Scaled(o, sizes, j)
    decreases j - i
  {
    if i < j {
      ScaledShrinks(o, sizes, i + 1, j);
      Quotient(Scaled(o, sizes, i + 1), o.multiplier);
    }
  }

  function Power(m: nat, n: nat): (p: nat)
    requires m >= 1
    ensures p >= 1
  {
    if n == 0 then 1 else m * Power(m, n - 1)
  }

  /** One multiplier for each level above the last. */
  lemma {:induction false} ScaledIs(o: Sizing, sizes: seq<nat>, i: nat)
    requires SizingOk(o) && 1 <= i < |sizes|
    ensures Scaled(o, sizes, i) == sizes[|sizes| - 1] / Power(o.multiplier, |sizes| - 1 - i)
    decreases |sizes| - i
  {
    if i < |sizes| - 1 {
      ScaledIs(o, sizes, i + 1);
      DivideTwice(sizes[|sizes| - 1], Power(o.multiplier, |sizes| - 2 - i), o.multiplier);
    }
  }

  lemma Distributes(a: nat, b: nat, c: nat)
    ensures a * (b + c) == a * b + a * c
  {
  }

  lemma Reorders(a: nat, b: nat, p: nat)
    ensures a * (b * p) == (b * a) * p
  {
  }

  lemma Grows(d: nat, a: nat, b: nat)
    requires a <= b
    ensures d * a <= d * b
  {
  }

  lemma Parts(x: nat, a: nat)
    requires a >= 1
    ensures x == a * (x / a) + x % a && x % a < a
  {
  }

  lemma DivisionIs(x: nat, d: nat, p: nat)
    requires d >= 1 && d * p <= x < d * p + d
    ensures x / d == p
  {
    var q := x / d;
    Parts(x, d);
    Distributes(d, q, 1);
    Distributes(d, p, 1);
    if q < p {
      Grows(d, q + 1, p);
    } else if p < q {
      Grows(d, p + 1, q);
    }
  }

  lemma DivideTwice(x: nat, a: nat, b: nat)
    requires a >= 1 && b >= 1
    ensures b * a >= 1 && (x / a) / b == x / (b * a)
  {
    var q, r := x / a, x % a;
    var p, s := q / b, q % b;
    Parts(x, a);
    Parts(q, b);
    Distributes(a, b * p, s);
    Reorders(a, b, p);
    Distributes(a, s, 1);
    Grows(a, s + 1, b);
    Reorders(a, b, 1);
    Grows(b, 1, a);
    DivisionIs(x, b * a, p);
  }

  lemma Quotient(x: nat, m: nat)
    requires m >= 1
    ensures x / m <= x
  {
  }

  /** The deepest level whose target is no larger than the base size, or 0. */
  function FirstBase(o: Sizing, sizes: seq<nat>, i: nat): (base: nat)
    requires SizingOk(o) && i < |sizes|
    ensures base <= i
  {
    if i == 0 || Target(o, sizes, i) <= o.baseLevelSize then i else FirstBase(o, sizes, i - 1)
  }

  /** Down past empty levels, looking only at the level below. */
  function Sink(sizes: seq<nat>, base: nat): (sunk: nat)
    requires base < |sizes|
    ensures base <= sunk < |sizes|
    ensures forall i | base < i <= sunk :: sizes[i] == 0
    decreases |sizes| - base
  {
    if base + 1 < |sizes| - 1 && sizes[base + 1] == 0 then Sink(sizes, base + 1) else base
  }

  function BaseOf(o: Sizing, sizes: seq<nat>): (base: nat)
    requires SizingOk(o) && |sizes| >= 2
    ensures base < |sizes|
  {
    var sunk := Sink(sizes, FirstBase(o, sizes, |sizes| - 1));
    if sunk < |sizes| - 1 && sizes[sunk] == 0 && sizes[sunk + 1] < Target(o, sizes, sunk + 1) then sunk + 1 else sunk
  }

  /** levelTargets, the base level and the target sizes; `sizes` are the sizes of all levels. */
  method LevelTargets(o: Sizing, sizes: seq<nat>) returns (base: nat, targets: seq<nat>)
    requires SizingOk(o) && |sizes| >= 2
    ensures |targets| == |sizes| && forall i | 1 <= i < |sizes| :: targets[i] == Target(o, sizes, i)
    ensures base == BaseOf(o, sizes)
  {
    targets, base := seq(|sizes|, _ => 0), 0;
    var dbSize := sizes[|sizes| - 1];
    var i := |sizes| - 1;
    while i > 0
      invariant 0 <= i < |sizes| && |targets| == |sizes| && base < |sizes|
      invariant i > 0 ==> dbSize == Scaled(o, sizes, i)
      invariant forall k | i < k < |sizes| :: targets[k] == Target(o, sizes, k)
      invariant (if base == 0 then FirstBase(o, sizes, i) else base) == FirstBase(o, sizes, |sizes| - 1)
      decreases i
    {
      var target := if dbSize < o.baseLevelSize then o.baseLevelSize else dbSize;
      targets := targets[i := target];
      if base == 0 && target <= o.baseLevelSize {
        base := i;
      }
      dbSize := dbSize / o.multiplier;
      i := i - 1;
    }
    i := base + 1;
    while i < |sizes| - 1
      invariant base + 1 == i && base < |sizes|
      invariant Sink(sizes, base) == Sink(sizes, FirstBase(o, sizes, |sizes| - 1))
    {
      if sizes[i] > 0 {
        break;
      }
      base := i;
      i := i + 1;
    }
    if base < |sizes| - 1 && sizes[base] == 0 && sizes[base + 1] < targets[base + 1] {
      base := base + 1;
    }
  }

  lemma {:induction false} FirstBaseIsZero(o: Sizing, sizes: seq<nat>, i: nat)
    requires SizingOk(o) && i < |sizes|
    ensures FirstBase(o, sizes, i) == 0 <==> forall k | 1 <= k <= i :: Scaled(o, sizes, k) > o.baseLevelSize
  {
    hide Scaled;
    if i > 0 {
      assert Target(o, sizes, i) <= o.baseLevelSize <==> Scaled(o, sizes, i) <= o.baseLevelSize;
      FirstBaseIsZero(o, sizes, i - 1);
    }
  }

  /** Level 0 itself comes out as the base, which the fill function does not accept, exactly when
      the last level is too large for the number of levels, level 1 has data, and level 0 has
      data or level 1 is full. */
  lemma BaseIsZeroExactly(o: Sizing, sizes: seq<nat>)
    requires SizingOk(o) && |sizes| >= 3
    ensures BaseOf(o, sizes) == 0 <==>
            Scaled(o, sizes, 1) > o.baseLevelSize && sizes[1] > 0 && (sizes[0] > 0 || sizes[1] >= Target(o, sizes, 1))
  {
    FirstBaseIsZero(o, sizes, |sizes| - 1);
    forall k | 1 <= k < |sizes| ensures Scaled(o, sizes, 1) <= Scaled(o, sizes, k) {
      ScaledShrinks(o, sizes, 1, k);
    }
  }

  /** The first candidate is the deepest level whose scaled size is within the base size. */
  lemma {:induction false} FirstBaseIs(o: Sizing, sizes: seq<nat>, i: nat)
    requires SizingOk(o) && i < |sizes|
    ensures var first := FirstBase(o, sizes, i);
            && (first > 0 ==> Scaled(o, sizes, first) <= o.baseLevelSize)
            && forall k | first < k <= i :: Scaled(o, sizes, k) > o.baseLevelSize
  {
    hide Scaled;
    if i > 0 && Target(o, sizes, i) > o.baseLevelSize {
      FirstBaseIs(o, sizes, i - 1);
    }
  }

  lemma {:induction false} SinkIs(sizes: seq<nat>, base: nat)
    requires base < |sizes|
    ensures var sunk := Sink(sizes, base);
            && (sunk == base || sunk < |sizes| - 1) && (sunk + 1 < |sizes| - 1 ==> sizes[sunk + 1] > 0)
    decreases |sizes| - base
  {
    if base + 1 < |sizes| - 1 && sizes[base + 1] == 0 {
      SinkIs(sizes, base + 1);
    }
  }

  /** Level `first` is the deepest whose scaled size is within the base size, or 0 if there is none;
      the levels from there down to `sunk` are empty and above the last, and the next one has data or
      is the last. */
  predicate SinksFrom(o: Sizing, sizes: seq<nat>, first: nat, sunk: nat)
    requires SizingOk(o)
  {
    && first <= sunk < |sizes|
    && (first > 0 ==> Scaled(o, sizes, first) <= o.baseLevelSize)
    && (forall k | first < k < |sizes| :: Scaled(o, sizes, k) > o.baseLevelSize)
    && (forall i | first < i <= sunk :: i < |sizes| - 1 && sizes[i] == 0)
    && (sunk + 1 < |sizes| - 1 ==> sizes[sunk + 1] > 0)
  }

  /** It is empty, and the level below is smaller than it should be. */
  predicate OneDeeper(o: Sizing, sizes: seq<nat>, sunk: nat)
    requires SizingOk(o) && sunk < |sizes|
  {
    sunk < |sizes| - 1 && sizes[sunk] == 0 &&
    (sizes[sunk + 1] < Scaled(o, sizes, sunk + 1) || sizes[sunk + 1] < o.baseLevelSize)
  }

  /** The base level, over the sizes alone. */
  lemma BaseIsExactly(o: Sizing, sizes: seq<nat>, base: nat)
    requires SizingOk(o) && |sizes| >= 2
    ensures BaseOf(o, sizes) == base <==>
            exists first: nat, sunk: nat :: SinksFrom(o, sizes, first, sunk) && base == if OneDeeper(o, sizes, sunk) then sunk + 1 else sunk
  {
    hide Scaled;
    var first := FirstBase(o, sizes, |sizes| - 1);
    var sunk := Sink(sizes, first);
    FirstBaseIs(o, sizes, |sizes| - 1);
    SinkIs(sizes, first);
    assert SinksFrom(o, sizes, first, sunk);
    forall f: nat, g: nat | SinksFrom(o, sizes, f, g) ensures f == first && g == sunk {
      OneSinking(o, sizes, f, g, first, sunk);
    }
  }

  lemma OneSinking(o: Sizing, sizes: seq<nat>, f: nat, g: nat, first: nat, sunk: nat)
    requires SizingOk(o) && SinksFrom(o, sizes, f, g) && SinksFrom(o, sizes, first, sunk)
    ensures f == first && g == sunk
  {
    hide Scaled;
    assert f <= first && first <= f;
  }

  /** Level `i` is passed over: the level below it is small enough to be a candidate, or it is the
      candidate itself and the level below it is empty. */
  predicate PassedOver(o: Sizing, sizes: seq<nat>, i: nat)
    requires SizingOk(o) && 1 <= i < |sizes| - 1
  {
    Scaled(o, sizes, i + 1) <= o.baseLevelSize ||
    (i + 1 < |sizes| - 1 && sizes[i + 1] == 0 && Scaled(o, sizes, i) <= o.baseLevelSize)
  }

  /** The base level is below a level with data exactly when some level with data is passed over.
      The comment at levelTargets promises that this does not happen. */
  lemma BaseIsFirstExactly(o: Sizing, sizes: seq<nat>)
    requires SizingOk(o) && |sizes| >= 2
    ensures (exists i :: 1 <= i < BaseOf(o, sizes) && sizes[i] > 0) <==>
            exists i :: 1 <= i < |sizes| - 1 && sizes[i] > 0 && PassedOver(o, sizes, i)
  {
    var last := |sizes| - 1;
    var first, base := FirstBase(o, sizes, last), BaseOf(o, sizes);
    FirstBaseIs(o, sizes, last);
    forall i | 1 <= i < base && sizes[i] > 0 ensures i < last && PassedOver(o, sizes, i) {
      if i < first {
        ScaledShrinks(o, sizes, i + 1, first);
      }
    }
    forall i | 1 <= i < last && sizes[i] > 0 && PassedOver(o, sizes, i) ensures i < base {
      forall k | i < k <= last ensures Scaled(o, sizes, i + 1) <= Scaled(o, sizes, k) {
        ScaledShrinks(o, sizes, i + 1, k);
      }
    }
  }

  /** When the last level shrinks, the base level moves below a level with data. */
  lemma BasePassesOver()
    ensures var sizes: seq<nat> := [1, 0, 0, 0, 5, 0, 8]; BaseOf(Sizing(10, 10), sizes) == 6 && sizes[4] > 0
    ensures BaseOf(Sizing(10, 10), [1, 0, 50]) == 1 && BaseOf(Sizing(10, 10), [1, 5, 8]) == 2
  {
  }

  // ---------- Why it matters ----------

  /** Level 0 to `base`, whatever lies between. */
  ghost predicate Moves(a: Tree, b: Tree, count: nat, base: nat, outcome: set<Table>) {
    && 1 <= count <= |a.l0| && 1 <= base <= |a.levels| == |b.levels|
    && b.l0 == a.l0[count..]
    && Level(b, base) == Level(a, base) - Bottom(Level(a, base), AsSet(a.l0[..count])) + outcome
    && (forall k | 1 <= k <= |a.levels| && k != base :: Level(b, k) == Level(a, k))
    && Files(outcome) <= Files(L0Inputs(a, count, base))
  }

  /** The versions that came from level 0 and arrived. */
  ghost function Arrived(a: Tree, count: nat, outcome: set<Table>): set<Entry>
    requires count <= |a.l0|
  {
    Files(outcome) * Files(AsSet(a.l0[..count]))
  }

  /** No level strictly between 0 and `base` holds a version of a key of `arrived`. */
  ghost predicate PassedOverIsApart(a: Tree, base: nat, arrived: set<Entry>)
    requires base <= |a.levels|
  {
    forall n, e, f | 1 <= n < base && e in Files(Level(a, n)) && f in arrived :: e.key.user != f.key.user
  }

  lemma FilesMono(x: set<Table>, y: set<Table>)
    requires x <= y
    ensures Files(x) <= Files(y)
  {
  }

  lemma MovedFiles(a: Tree, b: Tree, count: nat, base: nat, outcome: set<Table>)
    requires Moves(a, b, count, base, outcome)
    ensures Files(Level(b, base)) <= Files(Level(a, base)) + Arrived(a, count, outcome)
    ensures Arrived(a, count, outcome) <= Files(Level(b, base))
    ensures Arrived(a, count, outcome) <= Files(Level(a, 0)) && Files(Level(b, 0)) <= Files(Level(a, 0))
  {
    var top := AsSet(a.l0[..count]);
    var bottom := Bottom(Level(a, base), top);
    FilesUnion(Level(a, base) - bottom, outcome);
    FilesUnion(top, bottom);
    FilesMono(bottom, Level(a, base));
    FilesMono(Level(a, base) - bottom, Level(a, base));
    FilesMono(top, Level(a, 0));
    assert AsSet(a.l0[count..]) <= AsSet(a.l0);
    FilesMono(Level(b, 0), Level(a, 0));
  }

  lemma OrderAcross(a: Tree, b: Tree, count: nat, base: nat, outcome: set<Table>, i: nat, m: nat)
    requires Moves(a, b, count, base, outcome) && ColdOrder(a) && i < m <= |b.levels|
    requires PassedOverIsApart(a, base, Arrived(a, count, outcome))
    requires Newer(Files(Level(b, 0)), Arrived(a, count, outcome))
    ensures Newer(Files(Level(b, i)), Files(Level(b, m)))
  {
    hide Moves, Arrived, Level, Files;
    MovedFiles(a, b, count, base, outcome);
    LevelsOf(a, b, count, base, outcome);
    assert Newer(Files(Level(a, i)), Files(Level(a, m)));
    if i == base {
      assert Newer(Files(Level(a, 0)), Files(Level(a, m)));
    }
  }

  lemma LevelsOf(a: Tree, b: Tree, count: nat, base: nat, outcome: set<Table>)
    requires Moves(a, b, count, base, outcome)
    ensures 1 <= base <= |a.levels| == |b.levels|
    ensures forall k | 1 <= k <= |a.levels| && k != base :: Level(b, k) == Level(a, k)
  {
  }

  /** Upper levels stay newer exactly when no level that is passed over holds a version of a key that
      arrived. */
  lemma OrderByArrivals(a: Tree, b: Tree, count: nat, base: nat, outcome: set<Table>)
    requires ColdOrder(a) && Moves(a, b, count, base, outcome)
    ensures ColdOrder(b) <==> PassedOverIsApart(a, base, Arrived(a, count, outcome))
  {
    if PassedOverIsApart(a, base, Arrived(a, count, outcome)) {
      OrderKept(a, b, count, base, outcome);
    }
    if ColdOrder(b) {
      forall n, e, f | 1 <= n < base && e in Files(Level(a, n)) && f in Arrived(a, count, outcome) ensures e.key.user != f.key.user {
        BothWays(a, b, count, base, outcome, n, e, f);
      }
    }
  }

  lemma OrderKept(a: Tree, b: Tree, count: nat, base: nat, outcome: set<Table>)
    requires ColdOrder(a) && Moves(a, b, count, base, outcome)
    requires PassedOverIsApart(a, base, Arrived(a, count, outcome))
    ensures ColdOrder(b)
  {
    hide Files, Level, PassedOverIsApart, Newer;
    OldestFirst(a.l0, count);
    ArrivedIsOlder(a, b, count, base, outcome);
    forall i, m | 0 <= i < m <= |b.levels| ensures Newer(Files(Level(b, i)), Files(Level(b, m))) {
      OrderAcross(a, b, count, base, outcome, i, m);
    }
  }

  lemma ArrivedIsOlder(a: Tree, b: Tree, count: nat, base: nat, outcome: set<Table>)
    requires ColdOrder(a) && Moves(a, b, count, base, outcome)
    ensures Newer(Files(Level(b, 0)), Arrived(a, count, outcome))
  {
    hide Files;
    OldestFirst(a.l0, count);
  }

  lemma BothWays(a: Tree, b: Tree, count: nat, base: nat, outcome: set<Table>, n: nat, e: Entry, f: Entry)
    requires ColdOrder(a) && ColdOrder(b) && Moves(a, b, count, base, outcome)
    requires 1 <= n < base && e in Files(Level(a, n)) && f in Arrived(a, count, outcome)
    ensures e.key.user != f.key.user
  {
    MovedFiles(a, b, count, base, outcome);
    assert Level(b, n) == Level(a, n);
    assert Newer(Files(Level(a, 0)), Files(Level(a, n)));
    assert Newer(Files(Level(b, n)), Files(Level(b, base)));
  }

  // ---------- Told before the compaction ----------

  /** The newest version of `user` in `es` is dead, and old enough to be dropped with all before it. */
  ghost predicate AllGoes(es: set<Entry>, user: UserKey, discardTs: nat) {
    exists d :: d in es && d.key.user == user && d.dead && !d.merge && d.key.ts <= discardTs
      && forall g | g in es && g.key.user == user :: g.key.ts <= d.key.ts
  }

  /** Of each key that a level between holds as well, nothing will be left of what is taken from
      level 0: it is dropped for good. */
  ghost predicate NothingArrives(s: System, count: nat, base: nat)
    requires count <= |s.tree.l0| && base <= |s.tree.levels|
  {
    forall n, e, f | 1 <= n < base && e in Files(Level(s.tree, n)) && f in Files(AsSet(s.tree.l0[..count])) && e.key.user == f.key.user ::
      && !ColdOverlap(s.tree, L0Inputs(s.tree, count, base), 0, base, base)
      && AllGoes(Files(AsSet(s.tree.l0[..count])), e.key.user, s.discardTs)
  }

  lemma {:induction false} NewestOf(es: set<Entry>, f: Entry) returns (d: Entry)
    requires f in es
    ensures d in es && d.key.user == f.key.user
    ensures forall g | g in es && g.key.user == f.key.user :: g.key.ts <= d.key.ts
    decreases |es|
  {
    var rest := es - {f};
    if g :| g in rest && g.key.user == f.key.user {
      d := NewestOf(rest, g);
      if d.key.ts < f.key.ts {
        d := f;
      }
      assert es == rest + {f};
    } else {
      d := f;
    }
  }

  /** The newest version of a key comes through unless it is dead, old enough, and nothing overlaps. */
  lemma NewestComesOut(p: Params, es: seq<Entry>, d: Entry)
    requires Sorted(es) && d in es && !p.dropped(d.key)
    requires forall g | g in es && g.key.user == d.key.user :: g.key.ts <= d.key.ts
    requires p.hasOverlap || !d.dead || d.merge || p.discardTs < d.key.ts
    ensures d in Contents(Filter(p, es))
  {
    forall x | x in es && Shadows(p, Contents(Filter(p, es)), x, d) ensures x == d {
      SameVersion(es, x, d);
    }
    if d !in Contents(Filter(p, es)) {
      Removed(p, es, d);
    }
  }

  lemma L0IsMoves(s: System, e: Event)
    requires Enabled(s, e) && e.CompactL0?
    ensures Moves(s.tree, Step(s, e).tree, e.count, e.base, e.job.outcome)
  {
    var p := OutcomeIsSubset(s, L0Inputs(s.tree, e.count, e.base), ColdOverlap(s.tree, L0Inputs(s.tree, e.count, e.base), 0, e.base, e.base), e.job);
    hide Compacts;
  }

  /** The newest version on level 0 is newer than what is on the target level. */
  lemma NewestInputs(s: System, count: nat, base: nat, d: Entry)
    requires ColdOrder(s.tree) && count <= |s.tree.l0| && 1 <= base <= |s.tree.levels|
    requires d in Files(AsSet(s.tree.l0[..count]))
    requires forall g | g in Files(AsSet(s.tree.l0[..count])) && g.key.user == d.key.user :: g.key.ts <= d.key.ts
    ensures d in Files(L0Inputs(s.tree, count, base))
    ensures forall g | g in Files(L0Inputs(s.tree, count, base)) && g.key.user == d.key.user :: g.key.ts <= d.key.ts
  {
    var top, bottom := AsSet(s.tree.l0[..count]), Bottom(Level(s.tree, base), AsSet(s.tree.l0[..count]));
    FilesUnion(top, bottom);
    FilesMono(bottom, Level(s.tree, base));
    FilesMono(top, Level(s.tree, 0));
    assert Newer(Files(Level(s.tree, 0)), Files(Level(s.tree, base)));
  }

  lemma ArrivesExactly(s: System, e: Event, d: Entry)
    requires ColdOrder(s.tree) && Enabled(s, e) && e.CompactL0?
    requires d in Files(AsSet(s.tree.l0[..e.count]))
    requires forall g | g in Files(AsSet(s.tree.l0[..e.count])) && g.key.user == d.key.user :: g.key.ts <= d.key.ts
    ensures var gone := d.dead && !d.merge && d.key.ts <= s.discardTs
              && !ColdOverlap(s.tree, L0Inputs(s.tree, e.count, e.base), 0, e.base, e.base);
            && (!gone ==> d in Files(e.job.outcome))
            && (gone ==> forall g | g in Files(e.job.outcome) && g.key.user == d.key.user :: s.discardTs < g.key.ts)
  {
    var inputs := L0Inputs(s.tree, e.count, e.base);
    var p := OutcomeIsSubset(s, inputs, ColdOverlap(s.tree, inputs, 0, e.base, e.base), e.job);
    hide ColdOverlap, Files, Filter;
    NewestInputs(s, e.count, e.base, d);
    assert d in Set(e.job.merged);
    if d.dead && !d.merge && d.key.ts <= s.discardTs && !p.hasOverlap {
      assert Newest(Set(e.job.merged), d.key.user, p.discardTs, d);
      OutputsOf(p, e.job.merged, d);
    } else {
      NewestComesOut(p, e.job.merged, d);
    }
  }

  lemma OutputsOf(p: Params, es: seq<Entry>, d: Entry)
    requires Sorted(es) && !p.hasOverlap && (forall k: InternalKey :: !p.dropped(k))
    requires Newest(Set(es), d.key.user, p.discardTs, d) && d.dead && !d.merge
    ensures forall g | g in Contents(Filter(p, es)) && g.key.user == d.key.user :: p.discardTs < g.key.ts
  {
    DeadGoes(p, START, es, d);
  }

  /** Compacting level 0 into the base level keeps upper levels newer exactly when nothing will arrive
      of the keys that a level between holds. */
  lemma OrderKeptExactly(s: System, e: Event)
    requires ColdOrder(s.tree) && Enabled(s, e) && e.CompactL0?
    ensures ColdOrder(Step(s, e).tree) <==> NothingArrives(s, e.count, e.base)
  {
    hide ColdOrder, Moves, Files, Compacts, ColdOverlap, Level, Step;
    L0IsMoves(s, e);
    var a, b := s.tree, Step(s, e).tree;
    var top := AsSet(a.l0[..e.count]);
    OrderByArrivals(a, b, e.count, e.base, e.job.outcome);
    if NothingArrives(s, e.count, e.base) {
      forall n, x, f | 1 <= n < e.base && x in Files(Level(a, n)) && f in Arrived(a, e.count, e.job.outcome) ensures x.key.user != f.key.user {
        if x.key.user == f.key.user {
          var d :| d in Files(top) && d.key.user == x.key.user && d.dead && !d.merge && d.key.ts <= s.discardTs
            && forall g | g in Files(top) && g.key.user == x.key.user :: g.key.ts <= d.key.ts;
          ArrivesExactly(s, e, d);
        }
      }
    }
    if ColdOrder(b) {
      forall n, x, f | 1 <= n < e.base && x in Files(Level(a, n)) && f in Files(top) && x.key.user == f.key.user
        ensures !ColdOverlap(a, L0Inputs(a, e.count, e.base), 0, e.base, e.base) && AllGoes(Files(top), x.key.user, s.discardTs)
      {
        var d := NewestOf(Files(top), f);
        ArrivesExactly(s, e, d);
      }
    }
  }
}
