/** Both read paths over a running tree: point lookup and iteration find the same, and what they
    find is what the full history of writes says. */
module Agreement {
  import opened Keys
  import opened Compaction
  import opened Snapshots
  import opened Lsm
  import opened LsmSafety
  import opened LsmReads
  import opened Lookup
  import opened Merge
  import opened MergeIterator
  import opened Children
  import opened TxnIterator
  import opened Views
  import opened Wrappers

  /** Copies of an entry in several places are merged into one, and nothing is lost. */
  lemma MergedCovers(reverse: bool, lists: seq<seq<Entry>>, s: set<Entry>)
    requires Covering(reverse, lists, s) && forall a, b | a in s && b in s && a.key == b.key :: a == b
    ensures Set(MergedAll(reverse, lists)) == s && Strict(reverse, MergedAll(reverse, lists))
  {
    MergedAllIsUnion(reverse, lists);
    var out := MergedAll(reverse, lists);
    forall e | e in s ensures e in out {
      var i :| 0 <= i < |lists| && e in lists[i];
      SomeKeyWins(lists, i, e.key);
      var x: Entry :| x.key == e.key && Wins(lists, x);
      assert x in s;
    }
    forall e | e in out ensures e in s {
      assert Wins(lists, e);
    }
  }

  /** What the merged children deliver, at any timestamp a transaction may still use, is for every key
      exactly what a read of the full history of writes answers. */
  lemma IterationInRun(maxLevels: nat, events: seq<Event>, lists: seq<seq<Entry>>, o: Options, user: UserKey, answer: Option<Entry>)
    requires IsRun(maxLevels, events) && After(maxLevels, events).discardTs <= o.readTs
    requires Calm(events) || Tidy(maxLevels, events) || AllLossless(maxLevels, events)
    requires Covering(o.reverse, lists, All(After(maxLevels, events).tree))
    requires !o.allVersions && o.sinceTs == 0 && !o.hidden(user)
    requires Reads(After(maxLevels, events).written, user, o.readTs, answer)
    ensures forall e: Entry | e.key.user == user :: e in Stream(o, None, MergedAll(o.reverse, lists)) <==> answer == Some(e)
  {
    var s := After(maxLevels, events);
    RunsKeep(maxLevels, events);
    MergedCovers(o.reverse, lists, All(s.tree));
    ReadsAreExact(maxLevels, events, user, o.readTs, answer);
    var entries := MergedAll(o.reverse, lists);
    StreamIsView(o, entries);
    forall e: Entry | e.key.user == user ensures Live(o, Set(entries), e) <==> answer == Some(e) {
      LiveIsRead(o, entries, user, answer, e);
    }
  }

  /** The children merged, and the snapshot filter over them. */
  method FilteredPass(children: seq<seq<Entry>>, o: Options) returns (out: seq<Entry>)
    requires forall i | 0 <= i < |children| :: Strict(o.reverse, children[i])
    ensures out == Stream(o, None, MergedAll(o.reverse, children))
  {
    hide Merged, Strict, Stream;
    var iters := Leaves(children, o.reverse);
    var mi := NewMergeIterator(iters, o.reverse);
    var it := new Iterator(mi, o);
    out := Collect(it, None);
  }

  /** A full iteration over the database, from the child iterators to the snapshot filter. */
  method Pass(db: DB, o: Options, ghost doesNotHave: (Table, UserKey) -> bool)
    returns (out: seq<Entry>, ghost lists: seq<seq<Entry>>)
    requires db.Ready(doesNotHave)
    ensures Covering(o.reverse, lists, db.Contents()) && out == Stream(o, None, MergedAll(o.reverse, lists))
  {
    hide Covering, MergedAll, Strict, Stream, DB.Ready;
    var children := NewIterators(db, o.reverse, doesNotHave);
    CoveringStrict(o.reverse, children, db.Contents());
    out := FilteredPass(children, o);
    lists := children;
  }

  lemma CoveringStrict(reverse: bool, lists: seq<seq<Entry>>, s: set<Entry>)
    requires Covering(reverse, lists, s)
    ensures forall i | 0 <= i < |lists| :: Strict(reverse, lists[i])
  {
  }

  /** Such a pass delivers, in key order and once for every key, what a read of the full history of
      writes answers. */
  method IterateInRun(db: DB, ghost maxLevels: nat, ghost events: seq<Event>, o: Options,
                      ghost doesNotHave: (Table, UserKey) -> bool)
    returns (out: seq<Entry>)
    requires IsRun(maxLevels, events) && After(maxLevels, events).discardTs <= o.readTs
    requires Calm(events) || Tidy(maxLevels, events) || AllLossless(maxLevels, events)
    requires Lays(db, After(maxLevels, events).tree)
    requires forall h | h in db.lc.Handlers() :: NoFalseNegatives(h, doesNotHave)
    requires !o.allVersions && o.sinceTs == 0
    ensures IsView(o, db.Contents(), out)
    ensures forall user, answer, e: Entry
        | !o.hidden(user) && e.key.user == user && Reads(After(maxLevels, events).written, user, o.readTs, answer) ::
        e in out <==> answer == Some(e)
  {
    hide Covering, Merged, Strict, Stream, Iter.Built, Iter.Rest, DB.Ready;
    ReachableReady(db, maxLevels, events, doesNotHave);
    LaysContents(db, After(maxLevels, events).tree);
    ghost var lists;
    out, lists := Pass(db, o, doesNotHave);
    RunsKeep(maxLevels, events);
    MergedCovers(o.reverse, lists, db.Contents());
    StreamIsView(o, MergedAll(o.reverse, lists));
    forall user, answer, e: Entry
      | !o.hidden(user) && e.key.user == user && Reads(After(maxLevels, events).written, user, o.readTs, answer)
      ensures e in out <==> answer == Some(e)
    {
      IterationInRun(maxLevels, events, lists, o, user, answer);
    }
  }

  lemma LiveIsRead(o: Options, entries: seq<Entry>, user: UserKey, answer: Option<Entry>, e: Entry)
    requires o.sinceTs == 0 && !o.hidden(user) && Strict(o.reverse, entries)
    requires Reads(Set(entries), user, o.readTs, answer) && e.key.user == user
    ensures Live(o, Set(entries), e) <==> answer == Some(e)
  {
    if Live(o, Set(entries), e) {
      forall d | Newest(Set(entries), user, o.readTs, d) ensures d == e {
        StrictKeys(o.reverse, entries, d, e);
      }
      assert Newest(Set(entries), user, o.readTs, e);
    }
  }
}
