/** What the towers are for: the height of the list is that of its tallest node, and a Put that has
    linked its node has linked it on every level of the tower that was drawn for it. */
module SkiplistTowers {
  import opened Keys
  import opened Skiplist
  import opened SkiplistSafety

  /** A node that some writer has made. */
  ghost predicate Made(l: List, w: Writer) {
    0 < w.x < |l.nodes|
  }

  ghost predicate Raised(w: Writer) {
    w.at.Link? || w.at.Find? || w.at.Store? || w.at.Swap? || w.at.Retry?
  }

  ghost predicate TowerOk(l: List, w: Writer) {
    && (w.x == NIL || Made(l, w))
    && (w.at.Raise? ==> Made(l, w) && |l.nodes[w.x].tower| > w.at.seen)
    && (Raised(w) ==> Made(l, w) && |l.nodes[w.x].tower| <= l.height)
    && (w.at.Done? && Made(l, w) && |l.linked| == MAX_HEIGHT && w.x in l.linked[0] ==>
          forall i | 0 <= i < MAX_HEIGHT :: w.x in l.linked[i] <==> i < |l.nodes[w.x].tower|)
    && (w.at.Overwrite? && Made(l, w) && |l.linked| > 0 ==> w.x !in l.linked[0])
    && (w.at.Start? || w.at.Search? || w.at.Allocate? ==> w.x == NIL)
  }

  /** Every linked node fits under the height, which some node has, unless it is still 1. */
  ghost predicate HeightOk(l: List) {
    && |l.linked| == MAX_HEIGHT
    && (forall n | n in l.linked[0] && n != HEAD && 0 <= n < |l.nodes| :: |l.nodes[n].tower| <= l.height)
    && (l.height == 1 || exists n :: 0 < n < |l.nodes| && |l.nodes[n].tower| == l.height)
  }

  ghost predicate TowersOk(s: System) {
    && HeightOk(s.list) && (forall id | id in s.writers :: TowerOk(s.list, s.writers[id]))
    && forall a, b | a in s.writers && b in s.writers && a != b && s.writers[a].x != NIL :: s.writers[a].x != s.writers[b].x
  }

  ghost predicate Kept(l: List, w: Writer, h: nat)
    requires Safe(l, w) && 1 <= h <= MAX_HEIGHT
  {
    var (m, v) := StepWriter(l, w, h);
    && HeightOk(m) && TowerOk(m, v) && l.height <= m.height
    && (v.x == w.x || (w.x == NIL && v.x == |l.nodes|))
  }

  /** Steps that change no node. */
  lemma QuietKeeps(l: List, w: Writer, h: nat)
    requires Shape(l) && WriterOk(l, w) && 1 <= h <= MAX_HEIGHT && Safe(l, w) && HeightOk(l) && TowerOk(l, w)
    requires !w.at.Allocate? && !w.at.Overwrite? && !w.at.Store? && !w.at.Swap? && !w.at.Raise?
    ensures Kept(l, w, h)
  {
    hide SplicesOk;
  }

  lemma RaiseTower(l: List, w: Writer, h: nat)
    requires Shape(l) && WriterOk(l, w) && 1 <= h <= MAX_HEIGHT && Safe(l, w) && HeightOk(l) && TowerOk(l, w) && w.at.Raise?
    ensures Kept(l, w, h)
  {
    hide SplicesOk;
  }

  lemma AllocateTower(l: List, w: Writer, h: nat)
    requires Shape(l) && WriterOk(l, w) && 1 <= h <= MAX_HEIGHT && Safe(l, w) && HeightOk(l) && TowerOk(l, w) && w.at.Allocate?
    ensures Kept(l, w, h) && |StepWriter(l, w, h).0.nodes[StepWriter(l, w, h).1.x].tower| == h
  {
    hide SplicesOk;
    var (m, v) := StepWriter(l, w, h);
    SameTowers(l, m);
  }

  lemma NodeTower(l: List, w: Writer, h: nat)
    requires Shape(l) && WriterOk(l, w) && 1 <= h <= MAX_HEIGHT && Safe(l, w) && HeightOk(l) && TowerOk(l, w)
    requires w.at.Overwrite? || w.at.Store?
    ensures Kept(l, w, h)
  {
    hide SplicesOk;
    var (m, v) := StepWriter(l, w, h);
    SameTowers(l, m);
  }

  lemma SwapTower(l: List, w: Writer, h: nat)
    requires Shape(l) && WriterOk(l, w) && 1 <= h <= MAX_HEIGHT && Safe(l, w) && HeightOk(l) && TowerOk(l, w) && w.at.Swap?
    ensures Kept(l, w, h)
  {
    hide SplicesOk;
    var (m, v) := StepWriter(l, w, h);
    if m != l {
      assert m.linked[0] <= l.linked[0] + {w.x};
      forall n | n in m.linked[0] && n != HEAD && 0 <= n < |m.nodes| ensures |m.nodes[n].tower| <= m.height {
        assert n in l.linked[0] || n == w.x;
      }
      if l.height > 1 {
        var n :| 0 < n < |l.nodes| && |l.nodes[n].tower| == l.height;
        assert |m.nodes[n].tower| == m.height;
      }
    }
  }

  /** No tower gets another height. */
  lemma SameTowers(l: List, m: List)
    requires HeightOk(l) && l.height == m.height && l.linked == m.linked && |l.nodes| <= |m.nodes|
    requires forall n | 0 <= n < |l.nodes| :: |m.nodes[n].tower| == |l.nodes[n].tower|
    requires forall n | n in l.linked[0] :: 0 <= n < |l.nodes|
    ensures HeightOk(m)
  {
    if l.height > 1 {
      var n :| 0 < n < |l.nodes| && |l.nodes[n].tower| == l.height;
      assert |m.nodes[n].tower| == m.height;
    }
  }

  lemma OwnKeeps(l: List, w: Writer, h: nat)
    requires ListOk(l) && WriterOk(l, w) && 1 <= h <= MAX_HEIGHT && Safe(l, w) && HeightOk(l) && TowerOk(l, w)
    ensures Kept(l, w, h) && |l.linked| == MAX_HEIGHT
  {
    hide Kept, WriterOk, TowerOk, Safe, Shape, Sorted, Nested;
    match w.at
    case Allocate => AllocateTower(l, w, h);
    case Overwrite(_) => NodeTower(l, w, h);
    case Store(_) => NodeTower(l, w, h);
    case Swap(_) => SwapTower(l, w, h);
    case Raise(_) => RaiseTower(l, w, h);
    case _ => QuietKeeps(l, w, h);
  }

  /** A step of another writer leaves the node alone. */
  lemma OtherKeeps(l: List, m: List, x: Ref, w: Writer)
    requires TowerOk(l, w) && Grows(l, m, x) && |l.linked| == MAX_HEIGHT && l.height <= m.height && (w.x != NIL ==> w.x != x)
    ensures TowerOk(m, w)
  {
  }

  lemma StepTowers(puts: seq<Put>, s: System, e: Event)
    requires SystemOk(puts, s) && TowersOk(s) && Enabled(s, e)
    ensures TowersOk(Step(s, e))
  {
    hide ListOk, WriterOk, TowerOk, HeightOk, Contents, Replay, LogOk, StepWriter, Safe;
    var l, w := s.list, s.writers[e.id];
    assert WriterOk(l, w);
    StepKeeps(l, w, e.height);
    OwnKeeps(l, w, e.height);
    var (m, v) := StepWriter(l, w, e.height);
    var t := Step(s, e);
    forall id | id in t.writers ensures TowerOk(t.list, t.writers[id]) {
      if id != e.id {
        MadeIs(l, s.writers[id]);
        OtherKeeps(l, m, Private(w), s.writers[id]);
      }
    }
    forall a, b | a in t.writers && b in t.writers && a != b && t.writers[a].x != NIL ensures t.writers[a].x != t.writers[b].x {
      MadeIs(l, s.writers[a]);
      MadeIs(l, s.writers[b]);
    }
  }

  lemma MadeIs(l: List, w: Writer)
    requires TowerOk(l, w)
    ensures w.x == NIL || 0 < w.x < |l.nodes|
  {
  }

  lemma {:induction false} RunTowers(puts: seq<Put>, events: seq<Event>)
    requires IsRun(puts, events)
    ensures TowersOk(After(puts, events))
    decreases |events|
  {
    hide SystemOk, TowersOk, Step, Enabled;
    if events == [] {
      FirstTowers(puts);
    } else {
      var front, e := events[..|events| - 1], events[|events| - 1];
      RunTowers(puts, front);
      RunKeeps(puts, front);
      StepTowers(puts, After(puts, front), e);
    }
  }

  lemma FirstTowers(puts: seq<Put>)
    ensures TowersOk(Initial(puts))
  {
  }

  // ---------- Main results ----------

  /** In every state of every run the height of the list, from which each search starts, is that of the
      tallest node: no linked node is taller, and it is 1 or some node has it. */
  lemma HeightIsTallest(puts: seq<Put>, events: seq<Event>)
    requires IsRun(puts, events)
    ensures var l := After(puts, events).list;
            && (forall i: nat, n | OnLevel(l, i, n) && n != HEAD :: i < |l.nodes[n].tower| <= l.height)
            && (l.height == 1 || exists n :: 0 < n < |l.nodes| && |l.nodes[n].tower| == l.height)
  {
    hide Sorted, WritersOk, LogOk, Contents, Replay;
    RunTowers(puts, events);
    RunKeeps(puts, events);
    var l := After(puts, events).list;
    forall i: nat, n | OnLevel(l, i, n) && n != HEAD ensures |l.nodes[n].tower| <= l.height {
      assert OnLevel(l, 0, n);
    }
  }

  /** A Put that has returned has linked its node on every level of its tower, or not at all, having
      overwritten the value of another node. */
  lemma WholeTower(puts: seq<Put>, events: seq<Event>, id: WriterId)
    requires IsRun(puts, events) && id < |puts|
    ensures var s := After(puts, events);
            && id in s.writers && (s.writers[id].x == NIL || 0 < s.writers[id].x < |s.list.nodes|)
            && (s.writers[id].at.Done? && OnLevel(s.list, 0, s.writers[id].x) ==>
                  forall i | 0 <= i < MAX_HEIGHT :: OnLevel(s.list, i, s.writers[id].x) <==> i < |s.list.nodes[s.writers[id].x].tower|)
  {
    hide Sorted, LogOk, Contents, Replay, Nested;
    RunTowers(puts, events);
    RunKeeps(puts, events);
  }

  /** That tower is as high as was drawn when the node was made. */
  lemma {:induction false} TowerIsDrawn(puts: seq<Put>, events: seq<Event>, id: WriterId) returns (k: nat)
    requires IsRun(puts, events) && id in After(puts, events).writers && After(puts, events).writers[id].x != NIL
    ensures var s := After(puts, events); 0 < s.writers[id].x < |s.list.nodes|
    ensures var s := After(puts, events);
            && k < |events| && events[k].id == id && IsRun(puts, events[..k]) && id in After(puts, events[..k]).writers
            && After(puts, events[..k]).writers[id].at.Allocate? && |s.list.nodes[s.writers[id].x].tower| == events[k].height
    decreases |events|
  {
    hide SystemOk, TowersOk, Step, Enabled;
    var front, e := events[..|events| - 1], events[|events| - 1];
    RunTowers(puts, front);
    RunKeeps(puts, front);
    var s := After(puts, front);
    OwnTower(puts, s, e, id);
    if s.writers[id].x == NIL {
      k := |front|;
    } else {
      k := TowerIsDrawn(puts, front, id);
      assert front[..k] == events[..k];
    }
  }

  lemma OwnTower(puts: seq<Put>, s: System, e: Event, id: WriterId)
    requires SystemOk(puts, s) && TowersOk(s) && Enabled(s, e)
    requires id in Step(s, e).writers && Step(s, e).writers[id].x != NIL
    ensures id in s.writers && 0 < Step(s, e).writers[id].x < |Step(s, e).list.nodes|
    ensures s.writers[id].x == NIL ==>
              && e.id == id && s.writers[id].at.Allocate?
              && |Step(s, e).list.nodes[Step(s, e).writers[id].x].tower| == e.height
    ensures s.writers[id].x != NIL ==>
              && 0 < s.writers[id].x < |s.list.nodes| && Step(s, e).writers[id].x == s.writers[id].x
              && |Step(s, e).list.nodes[s.writers[id].x].tower| == |s.list.nodes[s.writers[id].x].tower|
  {
    hide ListOk, WriterOk, TowerOk, HeightOk, Contents, Replay, LogOk, Safe;
    var l, w := s.list, s.writers[e.id];
    assert WriterOk(l, w);
    StepKeeps(l, w, e.height);
    OwnKeeps(l, w, e.height);
    MadeIs(l, s.writers[id]);
    if w.at.Allocate? {
      MakesTower(l, w, e.height);
    } else {
      MakesNone(l, w, e.height);
    }
  }

  lemma MakesTower(l: List, w: Writer, h: nat)
    requires ListOk(l) && WriterOk(l, w) && 1 <= h <= MAX_HEIGHT && Safe(l, w) && HeightOk(l) && TowerOk(l, w) && w.at.Allocate?
    ensures |StepWriter(l, w, h).0.nodes| > StepWriter(l, w, h).1.x > 0
    ensures |StepWriter(l, w, h).0.nodes[StepWriter(l, w, h).1.x].tower| == h
  {
    AllocateTower(l, w, h);
  }

  lemma MakesNone(l: List, w: Writer, h: nat)
    requires Safe(l, w) && 1 <= h <= MAX_HEIGHT && !w.at.Allocate?
    ensures StepWriter(l, w, h).1.x == w.x
  {
  }
}
