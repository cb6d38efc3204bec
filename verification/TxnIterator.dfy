/** iterator.go: the snapshot filter over the merged entries, with its prefetch queue, in both
    directions. `Views` relates what it delivers to the versions a reader may see. */
module TxnIterator {
  import opened Keys
  import opened Compaction
  import opened Merge
  import opened MergeIterator
  import opened Wrappers

  /** `hidden` holds for badger's own keys, unless internal access is asked for, and for banned
      namespaces. */
  datatype Options = Options(
    readTs: nat, sinceTs: nat, reverse: bool, allVersions: bool,
    prefetchValues: bool, prefetchSize: int, hidden: UserKey -> bool)

  predicate Visible(o: Options, e: Entry) {
    !o.hidden(e.key.user) && e.key.ts <= o.readTs && !(o.sinceTs > 0 && e.key.ts <= o.sinceTs)
  }

  /** Where reverse iteration goes on to the next version instead of delivering this one. */
  predicate Newer(o: Options, rest: seq<Entry>) {
    o.reverse && |rest| > 1 && rest[1].key.ts <= o.readTs && rest[1].key.user == rest[0].key.user
  }

  /** What parsing the rest of the merged entries delivers. */
  function Stream(o: Options, last: Option<UserKey>, rest: seq<Entry>): seq<Entry>
    decreases |rest|, 1
  {
    if rest == [] then []
    else if !Visible(o, rest[0]) then Stream(o, last, rest[1..])
    else if o.allVersions then [rest[0]] + Stream(o, last, rest[1..])
    else if o.reverse then Fill(o, last, rest)
    else if last == Some(rest[0].key.user) then Stream(o, last, rest[1..])
    else Fill(o, Some(rest[0].key.user), rest)
  }

  /** From the point where the first entry is a candidate. */
  function Fill(o: Options, last: Option<UserKey>, rest: seq<Entry>): seq<Entry>
    requires rest != []
    decreases |rest|, 0
  {
    if rest[0].dead then Stream(o, last, rest[1..])
    else if Newer(o, rest) then Fill(o, last, rest[1..])
    else [rest[0]] + Stream(o, last, rest[1..])
  }

  class Iterator {
    const iitr: Iter?
    const o: Options
    var lastKey: Option<UserKey>
    var item: Option<Entry>
    var data: seq<Entry>

    constructor (iitr: Iter?, o: Options)
      requires iitr != null ==> iitr.Built() && iitr.reverse == o.reverse
      ensures Ready() && this.iitr == iitr && this.o == o
    {
      this.iitr, this.o := iitr, o;
      lastKey, item, data := None, None, [];
    }

    ghost predicate Ready() {
      iitr != null ==> iitr.Built() && iitr.reverse == o.reverse && this !in iitr.Repr
    }

    ghost function Footprint(): set<object> {
      if iitr == null then {this} else {this} + iitr.Repr
    }

    /** Positioned, though the queue may still have to be filled. */
    ghost predicate Parsing()
      reads Footprint()
    {
      && Ready() && (iitr != null ==> iitr.Valid())
      && (item.None? ==> data == [])
    }

    ghost predicate Valid()
      reads Footprint()
    {
      Parsing() && (item.None? ==> iitr == null || iitr.Rest() == [])
    }

    ghost function Rest(): seq<Entry>
      requires Parsing()
      reads Footprint()
    {
      if iitr == null then [] else iitr.Rest()
    }

    function Queue(): seq<Entry>
      reads this
    {
      if item.None? then [] else [item.value] + data
    }

    /** What the iterator has still to deliver, from the current item on. */
    ghost function Remaining(): seq<Entry>
      requires Parsing()
      reads Footprint()
    {
      Queue() + Stream(o, lastKey, Rest())
    }

    method SetItem(e: Entry)
      requires Parsing()
      modifies this`item, this`data
      ensures Parsing() && Queue() == old(Queue()) + [e]
      ensures Rest() == old(Rest())
    {
      if item.None? {
        item := Some(e);
      } else {
        data := data + [e];
      }
    }

    /** mi.Next. */
    method Advance()
      requires Parsing() && iitr != null && iitr.IsValid()
      modifies iitr.Repr
      ensures Parsing() && old(Rest()) != [] && Rest() == old(Rest())[1..]
    {
      iitr.FirstOfRest();
      iitr.Next();
    }

    /** Handles the entry under the cursor, and for a reverse candidate its newer versions. */
    method ParseItem() returns (pushed: bool)
      requires Parsing() && iitr != null && iitr.IsValid()
      modifies Footprint()
      ensures Parsing() && Remaining() == old(Remaining())
      ensures |Queue()| == old(|Queue()|) + if pushed then 1 else 0
      ensures |Rest()| < |old(Rest())|
    {
      hide Fill, Merged, Iter.Built, Iter.Rest, Iter.Fixed;
      var e := iitr.Value();
      if o.hidden(e.key.user) {
        Advance();
        return false;
      }
      if e.key.ts > o.readTs || (o.sinceTs > 0 && e.key.ts <= o.sinceTs) {
        Advance();
        return false;
      }
      if o.allVersions {
        Advance();
        Regroup(Queue(), e, Stream(o, lastKey, Rest()));
        SetItem(e);
        return true;
      }
      if !o.reverse {
        if lastKey == Some(e.key.user) {
          Advance();
          return false;
        }
        lastKey := Some(e.key.user);
      }
      pushed := FillItem(e);
    }

    /** Whether the entry now under the cursor is a newer version that the reader may see. */
    method MoreVersions(e: Entry) returns (more: bool)
      requires Parsing() && iitr != null
      ensures more <==> o.reverse && Rest() != [] && Rest()[0].key.ts <= o.readTs && Rest()[0].key.user == e.key.user
    {
      iitr.FirstOfRest();
      if !o.reverse || !iitr.IsValid() {
        return false;
      }
      var next := iitr.Value();
      more := next.key.ts <= o.readTs && next.key.user == e.key.user;
    }

    method FillItem(first: Entry) returns (pushed: bool)
      requires Parsing() && iitr != null && Rest() != [] && first == Rest()[0]
      modifies iitr.Repr, this`item, this`data
      ensures Parsing() && Remaining() == old(Queue() + Fill(o, lastKey, Rest()))
      ensures |Queue()| == old(|Queue()|) + if pushed then 1 else 0
      ensures |Rest()| < |old(Rest())|
    {
      hide Stream, Merged, Iter.Built, Iter.Rest, Iter.Fixed;
      var e := first;
      ghost var queue, fill, size := Queue(), Fill(o, lastKey, Rest()), |Rest()|;
      while true
        invariant Parsing() && Rest() != [] && e == Rest()[0] && |Rest()| <= size
        invariant Queue() == queue && Fill(o, lastKey, Rest()) == fill
        decreases |Rest()|
      {
        iitr.FirstOfRest();
        ghost var rest := Rest();
        if e.dead {
          Advance();
          return false;
        }
        Advance();
        iitr.FirstOfRest();
        var more := MoreVersions(e);
        if !more {
          Regroup(queue, e, Stream(o, lastKey, Rest()));
          SetItem(e);
          return true;
        }
        e := iitr.Value();
      }
    }

    method Prefetch()
      requires Ready() && iitr != null && iitr.Valid()
      modifies Footprint()
      ensures Valid() && Remaining() == Stream(o, old(lastKey), old(iitr.Rest()))
    {
      var size := 2;
      if o.prefetchValues && o.prefetchSize > 1 {
        size := o.prefetchSize;
      }
      var count := 0;
      item, data := None, [];
      ghost var all := Stream(o, lastKey, iitr.Rest());
      iitr.FirstOfRest();
      while iitr.IsValid()
        invariant Parsing() && (iitr.IsValid() <==> Rest() != [])
        invariant Remaining() == all && count == |Queue()| && count < size
        decreases |Rest()|
      {
        var pushed := ParseItem();
        iitr.FirstOfRest();
        if !pushed {
          continue;
        }
        count := count + 1;
        if count == size {
          break;
        }
      }
    }

    /** Seek(nil) is Rewind; a key starts there, at the newest version the reader may see. */
    method Seek(key: Option<UserKey>)
      requires Ready()
      modifies Footprint()
      ensures Valid() && Remaining() == Stream(o, None, Start(key))
    {
      item, data, lastKey := None, [], None;
      if iitr == null {
        return;
      }
      if key.None? {
        iitr.Rewind();
      } else {
        iitr.Seek(InternalKey(key.value, if o.reverse then 0 else o.readTs));
      }
      Prefetch();
    }

    /** The merged entries from the sought key on. */
    ghost function Start(key: Option<UserKey>): seq<Entry> {
      if iitr == null then []
      else if key.None? then iitr.all
      else From(o.reverse, iitr.all, InternalKey(key.value, if o.reverse then 0 else o.readTs))
    }

    method Next()
      requires Valid() && item.Some?
      modifies Footprint()
      ensures Valid() && old(Remaining()) != [] && Remaining() == old(Remaining())[1..]
    {
      if iitr == null {
        Pop();
        return;
      }
      Pop();
      iitr.FirstOfRest();
      ghost var left := Remaining();
      while iitr.IsValid()
        invariant Parsing() && (iitr.IsValid() <==> Rest() != [])
        invariant Remaining() == left
        decreases |Rest()|
      {
        var pushed := ParseItem();
        iitr.FirstOfRest();
        if pushed {
          break;
        }
      }
    }

    method Pop()
      requires Parsing() && item.Some?
      modifies this`item, this`data
      ensures Parsing() && Rest() == old(Rest())
      ensures old(Remaining()) != [] && Remaining() == old(Remaining())[1..]
    {
      hide Stream, Fill;
      if data == [] {
        item := None;
      } else {
        item, data := Some(data[0]), data[1..];
      }
    }
  }

  method TakeItem(it: Iterator) returns (e: Entry)
    requires it.Valid() && it.item.Some?
    modifies it.Footprint()
    ensures it.Valid() && old(it.Remaining()) == [e] + it.Remaining()
  {
    e := it.item.value;
    it.Next();
  }

  /** Whatever the prefetch size, a pass from a key delivers the stream of the entries there. */
  method Collect(it: Iterator, key: Option<UserKey>) returns (out: seq<Entry>)
    requires it.Ready()
    modifies it.Footprint()
    ensures out == Stream(it.o, None, it.Start(key))
  {
    it.Seek(key);
    out := [];
    while it.item.Some?
      invariant it.Valid()
      invariant out + it.Remaining() == Stream(it.o, None, it.Start(key))
      decreases |it.Remaining()|
    {
      var e := TakeItem(it);
      Regroup(out, e, it.Remaining());
      out := out + [e];
    }
  }
}
