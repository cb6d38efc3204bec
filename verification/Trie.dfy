/** trie/trie.go: ids attached to prefixes with holes. A search takes up every id on the paths that
    a key can follow; deleting an id prunes the nodes left empty. */
module Trie {
  import opened Keys

  type Id = nat

  /** A position of a pattern: a hole, or one byte. */
  datatype Cell = Any | Is(byte: Byte)
  type Pattern = seq<Cell>

  /** The prefix with holes where `ignore` says so. The list may be shorter or longer than it. */
  function PatternOf(prefix: Bytes, ignore: seq<bool>): (p: Pattern)
    ensures |p| == |prefix|
    ensures forall i | 0 <= i < |p| :: p[i] == if i < |ignore| && ignore[i] then Any else Is(prefix[i])
  {
    seq(|prefix|, i requires 0 <= i < |prefix| => if i < |ignore| && ignore[i] then Any else Is(prefix[i]))
  }

  /** The pattern fits the beginning of the key. */
  predicate Matches(p: Pattern, key: Bytes) {
    |p| <= |key| && forall i | 0 <= i < |p| :: p[i] == Any || p[i] == Is(key[i])
  }

  type Registry = set<(Pattern, Id)>

  /** What `Get` is for: the ids with a registered pattern that fits the key. */
  ghost function IdsFor(registered: Registry, key: Bytes): set<Id> {
    set e | e in registered && Matches(e.0, key) :: e.1
  }

  class Node {
    var children: map<Byte, Node>
    var ignored: Node?
    var ids: seq<Id>

    constructor ()
      ensures children == map[] && ignored == null && ids == []
    {
      children, ignored, ids := map[], null, [];
    }

    function Child(c: Cell): Node?
      reads this
    {
      ChildIn(Links(), c)
    }

    function Links(): Links
      reads this
    {
      Edge(children, ignored)
    }

    method SetChild(c: Cell, child: Node)
      modifies `children, `ignored
      ensures Links() == WithChild(old(Links()), c, child)
    {
      match c
      case Any => ignored := child;
      case Is(b) => children := children[b := child];
    }

    method DropChild(c: Cell)
      modifies `children, `ignored
      ensures Links() == WithoutChild(old(Links()), c)
    {
      match c
      case Any => ignored := null;
      case Is(b) => children := children - {b};
    }

    predicate IsEmpty()
      reads this
    {
      |children| == 0 && |ids| == 0 && ignored == null
    }
  }

  /** Where a node leads. */
  datatype Links = Edge(children: map<Byte, Node>, ignored: Node?)

  const NO_LINKS: Links := Edge(map[], null)

  function ChildIn(l: Links, c: Cell): Node? {
    match c
    case Any => l.ignored
    case Is(b) => if b in l.children then l.children[b] else null
  }

  function WithChild(l: Links, c: Cell, child: Node): Links {
    match c
    case Any => l.(ignored := child)
    case Is(b) => l.(children := l.children[b := child])
  }

  function WithoutChild(l: Links, c: Cell): Links {
    match c
    case Any => l.(ignored := null)
    case Is(b) => l.(children := l.children - {b})
  }

  datatype Op = Set | Del

  type Nodes = map<Pattern, Node>

  /** Distinct paths end in distinct nodes, and no path begins in the air. */
  ghost predicate Paths(at: Nodes, root: Node) {
    && [] in at && at[[]] == root
    && (forall p, q | p in at && q in at && at[p] == at[q] :: p == q)
    && forall p {:trigger ParentIn(at, p)} | p in at :: ParentIn(at, p)
  }

  ghost predicate ParentIn(at: Nodes, p: Pattern) {
    p != [] ==> p[..|p| - 1] in at
  }

  type Edges = map<Pattern, Links>
  type IdLists = map<Pattern, seq<Id>>

  predicate ChildOk(at: Nodes, edges: Edges, p: Pattern, c: Cell)
    requires p in edges
  {
    var child := ChildIn(edges[p], c);
    if child == null then p + [c] !in at else p + [c] in at && at[p + [c]] == child
  }

  /** `at` gives the node at the end of each path; a path goes on exactly where its node has a child. */
  ghost predicate Linked(at: Nodes, edges: Edges, root: Node) {
    Paths(at, root) && edges.Keys == at.Keys && forall p, c | p in at :: ChildOk(at, edges, p, c)
  }

  lemma LinkedGrows(at: Nodes, edges: Edges, root: Node, path: Pattern, c: Cell, child: Node)
    requires Linked(at, edges, root) && path in at && ChildIn(edges[path], c) == null && (forall p | p in at :: at[p] != child)
    ensures path + [c] !in at
    ensures Linked(at[path + [c] := child], edges[path := WithChild(edges[path], c, child)][path + [c] := NO_LINKS], root)
  {
    var last := path + [c];
    var (at', edges') := (at[last := child], edges[path := WithChild(edges[path], c, child)][last := NO_LINKS]);
    assert ChildOk(at, edges, path, c);
    PathsGrow(at, root, path, c, child);
    forall p, d | p in at' ensures ChildOk(at', edges', p, d) {
      LastCell(p, d, path, c);
      if p == last {
        PrefixMissing(at, root, p, d);
      } else {
        assert ChildOk(at, edges, p, d);
      }
    }
  }

  lemma PrefixMissing(at: Nodes, root: Node, p: Pattern, d: Cell)
    requires Paths(at, root) && p !in at
    ensures p + [d] !in at
  {
    assert p + [d] in at ==> ParentIn(at, p + [d]);
    assert (p + [d])[..|p|] == p;
  }

  lemma LinkedShrinks(at: Nodes, edges: Edges, root: Node, path: Pattern, c: Cell)
    requires Linked(at, edges, root) && path in at && path + [c] in at && edges[path + [c]] == NO_LINKS
    ensures Linked(at - {path + [c]}, edges[path := WithoutChild(edges[path], c)] - {path + [c]}, root)
  {
    var last := path + [c];
    var (at', edges') := (at - {last}, edges[path := WithoutChild(edges[path], c)] - {last});
    forall d ensures last + [d] !in at {
      assert ChildOk(at, edges, last, d);
    }
    PathsShrink(at, root, last);
    forall p, d | p in at' ensures ChildOk(at', edges', p, d) {
      LastCell(p, d, path, c);
      assert ChildOk(at, edges, p, d);
    }
  }

  lemma PathsGrow(at: Nodes, root: Node, path: Pattern, c: Cell, child: Node)
    requires Paths(at, root) && path in at && (forall p | p in at :: at[p] != child)
    ensures Paths(at[path + [c] := child], root)
  {
    var after := at[path + [c] := child];
    forall p | p in after ensures ParentIn(after, p) {
      if p == path + [c] {
        assert p[..|p| - 1] == path;
      } else {
        assert ParentIn(at, p);
      }
    }
  }

  lemma PathsShrink(at: Nodes, root: Node, gone: Pattern)
    requires Paths(at, root) && gone != [] && forall d :: gone + [d] !in at
    ensures Paths(at - {gone}, root)
  {
    forall p | p in at - {gone} ensures ParentIn(at - {gone}, p) {
      assert ParentIn(at, p);
      if p != [] {
        assert p == p[..|p| - 1] + [p[|p| - 1]];
      }
    }
  }

  lemma {:induction false} PrefixIn(at: Nodes, root: Node, p: Pattern, k: nat)
    requires Paths(at, root) && p in at && k <= |p|
    ensures p[..k] in at
    decreases |p|
  {
    if k == |p| {
      assert p[..k] == p;
    } else {
      assert ParentIn(at, p);
      PrefixIn(at, root, p[..|p| - 1], k);
      assert p[..|p| - 1][..k] == p[..k];
    }
  }

  ghost function RegisteredIn(ids: IdLists): Registry {
    set p, i | p in ids && i in ids[p] :: (p, i)
  }

  /** The ids at or below `path` whose pattern, behind `path`, fits the key. */
  ghost function Below(ids: IdLists, path: Pattern, key: Bytes): set<Id>
  {
    set p, i | p in ids && path <= p && i in ids[p] && Matches(p[|path|..], key) :: i
  }

  lemma AllBelow(ids: IdLists, key: Bytes)
    ensures Below(ids, [], key) == IdsFor(RegisteredIn(ids), key)
  {
    forall p, i | p in ids && i in ids[p] && Matches(p, key) ensures i in IdsFor(RegisteredIn(ids), key) && i in Below(ids, [], key) {
      assert (p, i) in RegisteredIn(ids) && p[0..] == p;
    }
    forall i | i in Below(ids, [], key) ensures i in IdsFor(RegisteredIn(ids), key) {
      var p :| p in ids && i in ids[p] && Matches(p[0..], key);
      assert p[0..] == p;
    }
    forall i | i in IdsFor(RegisteredIn(ids), key) ensures i in Below(ids, [], key) {
      var e :| e in RegisteredIn(ids) && Matches(e.0, key) && e.1 == i;
      assert e.0[0..] == e.0;
    }
  }

  /** One step of a search: the node's own ids, and those behind the hole and behind the byte. */
  lemma BelowSplits(ids: IdLists, path: Pattern, key: Bytes)
    requires path in ids
    ensures key == [] ==> Below(ids, path, key) == set i | i in ids[path]
    ensures key != [] ==> Below(ids, path, key) == (set i | i in ids[path])
                          + Below(ids, path + [Any], key[1..]) + Below(ids, path + [Is(key[0])], key[1..])
  {
    var own := set i | i in ids[path];
    forall i | i in own ensures i in Below(ids, path, key) {
      assert path[|path|..] == [];
    }
    forall i | i in Below(ids, path, key)
      ensures i in own || (key != [] && (i in Below(ids, path + [Any], key[1..]) || i in Below(ids, path + [Is(key[0])], key[1..])))
    {
      var p :| p in ids && path <= p && i in ids[p] && Matches(p[|path|..], key);
      if p != path {
        var c := p[|path|];
        assert c == p[|path|..][0] && (path + [c]) <= p;
        StepMatches(p, path, c, key);
      }
    }
    if key != [] {
      forall c, i | (c == Any || c == Is(key[0])) && i in Below(ids, path + [c], key[1..]) ensures i in Below(ids, path, key) {
        var p :| p in ids && path + [c] <= p && i in ids[p] && Matches(p[|path| + 1..], key[1..]);
        assert p[|path|] == (path + [c])[|path|] == c;
        StepMatches(p, path, c, key);
      }
    }
  }

  lemma StepMatches(p: Pattern, path: Pattern, c: Cell, key: Bytes)
    requires path + [c] <= p
    ensures path <= p
    ensures Matches(p[|path|..], key) <==> key != [] && (c == Any || c == Is(key[0])) && Matches(p[|path + [c]|..], key[1..])
  {
    var rest, tail := p[|path|..], p[|path| + 1..];
    assert rest == [c] + tail && path <= path + [c];
    if key != [] {
      assert forall i | 0 <= i < |tail| && i + 1 < |key| :: rest[i + 1] == tail[i] && key[1..][i] == key[i + 1];
      if Matches(rest, key) {
        forall i | 0 <= i < |tail| ensures tail[i] == Any || tail[i] == Is(key[1..][i]) {
          assert rest[i + 1] == Any || rest[i + 1] == Is(key[i + 1]);
        }
      }
      if Matches(tail, key[1..]) && (c == Any || c == Is(key[0])) {
        forall i | 0 <= i < |rest| ensures rest[i] == Any || rest[i] == Is(key[i]) {
          assert i > 0 ==> tail[i - 1] == Any || tail[i - 1] == Is(key[1..][i - 1]);
        }
      }
    }
  }

  /** Where the tree ends, so do the ids. */
  lemma NothingBelow(at: Nodes, root: Node, ids: IdLists, path: Pattern, key: Bytes)
    requires Paths(at, root) && ids.Keys == at.Keys && path !in at
    ensures Below(ids, path, key) == {}
  {
    NoPath(at, root, path);
  }

  lemma NoPath(at: Nodes, root: Node, path: Pattern)
    requires Paths(at, root) && path !in at
    ensures forall p | p in at :: !(path <= p)
  {
    forall p | p in at && path <= p ensures p[..|path|] in at && p[..|path|] == path {
      PrefixIn(at, root, p, |path|);
    }
  }

  /** The path `p` goes on from `path` with `c`. */
  predicate Behind(path: Pattern, c: Cell, p: Pattern) {
    path < p && p[|path|] == c
  }

  lemma BehindIs(path: Pattern, c: Cell)
    ensures forall p :: Behind(path, c, p) <==> path + [c] <= p
  {
    forall p ensures Behind(path, c, p) <==> path + [c] <= p {
      if path + [c] <= p {
        assert p[|path|] == (path + [c])[|path|] && path <= path + [c];
      }
      if Behind(path, c, p) {
        assert p[..|path| + 1] == path + [c];
      }
    }
  }

  lemma NoneBehind(at: Nodes, edges: Edges, root: Node, last: Pattern)
    requires Linked(at, edges, root) && last !in at
    ensures forall p | p in at :: !(last <= p)
  {
    NoPath(at, root, last);
  }

  /** A path goes on only where there is a child. */
  lemma NoOtherPath(at: Nodes, edges: Edges, root: Node, path: Pattern)
    requires Linked(at, edges, root) && path in at
    ensures forall p | p in at && path < p :: ChildIn(edges[path], p[|path|]) != null
  {
    forall p | p in at && path < p ensures ChildIn(edges[path], p[|path|]) != null {
      PrefixIn(at, root, p, |path| + 1);
      assert p[..|path| + 1] == path + [p[|path|]];
      assert ChildOk(at, edges, path, p[|path|]);
    }
  }

  lemma {:induction false} Deepest(keys: set<Pattern>) returns (h: nat)
    ensures forall p | p in keys :: |p| <= h
  {
    if keys == {} {
      h := 0;
    } else {
      var p :| p in keys;
      h := Deepest(keys - {p});
      if h < |p| {
        h := |p|;
      }
    }
  }

  class Trie {
    const root: Node
    ghost var at: Nodes
    ghost var nodes: set<Node>

    constructor ()
      ensures Valid() && Registered() == {} && fresh(nodes)
    {
      root := new Node();
      new;
      at, nodes := map[[] := root], {root};
    }

    ghost predicate Known()
      reads this
    {
      forall p | p in at :: at[p] in nodes
    }

    ghost function EdgesOf(): Edges
      requires Known()
      reads this, nodes
    {
      map p | p in at :: at[p].Links()
    }

    ghost function IdsOf(): IdLists
      requires Known()
      reads this, nodes
    {
      map p | p in at :: at[p].ids
    }

    ghost predicate Valid()
      reads this, nodes
    {
      Known() && Linked(at, EdgesOf(), root)
    }

    ghost function Registered(): Registry
      requires Known()
      reads this, nodes
    {
      RegisteredIn(IdsOf())
    }

    /** Every node but the root holds an id or leads to one. */
    ghost predicate Pruned()
      requires Known()
      reads this, nodes
    {
      forall p | p in at && p != [] :: !at[p].IsEmpty()
    }

    method AddChild(n: Node, c: Cell, ghost path: Pattern) returns (child: Node)
      requires Valid() && path in at && at[path] == n && n.Child(c) == null
      modifies this`at, this`nodes, n`children, n`ignored
      ensures Valid() && fresh(child) && at == old(at)[path + [c] := child] && nodes == old(nodes) + {child}
      ensures Registered() == old(Registered())
    {
      child := new Node();
      hide Linked, RegisteredIn, WithChild;
      LinkedGrows(at, EdgesOf(), root, path, c, child);
      NoMoreIds(IdsOf(), path + [c]);
      OnlyAt(at, EdgesOf(), root, path);
      LastCell(path, c, path, c);
      Link(n, c, child, path, path + [c]);
    }

    method Link(n: Node, c: Cell, child: Node, ghost path: Pattern, ghost last: Pattern)
      requires Known() && path in at && at[path] == n && last !in at && child !in nodes
      requires child.Links() == NO_LINKS && child.ids == [] && forall p | p in at && p != path :: at[p] != n
      modifies this`at, this`nodes, n`children, n`ignored
      ensures Known() && at == old(at)[last := child] && nodes == old(nodes) + {child}
      ensures EdgesOf() == old(EdgesOf())[path := WithChild(old(EdgesOf())[path], c, child)][last := NO_LINKS]
      ensures IdsOf() == old(IdsOf())[last := []]
    {
      hide WithChild;
      SetChildAt(n, c, child, path);
      Extend(child, last);
    }

    method SetChildAt(n: Node, c: Cell, child: Node, ghost path: Pattern)
      requires Known() && path in at && at[path] == n && forall p | p in at && p != path :: at[p] != n
      modifies n`children, n`ignored
      ensures EdgesOf() == old(EdgesOf())[path := WithChild(old(EdgesOf())[path], c, child)] && IdsOf() == old(IdsOf())
    {
      hide WithChild;
      n.SetChild(c, child);
    }

    ghost method Extend(child: Node, last: Pattern)
      requires Known() && last !in at && child.Links() == NO_LINKS && child.ids == []
      modifies this`at, this`nodes
      ensures Known() && at == old(at)[last := child] && nodes == old(nodes) + {child}
      ensures EdgesOf() == old(EdgesOf())[last := NO_LINKS] && IdsOf() == old(IdsOf())[last := []]
    {
      at, nodes := at[last := child], nodes + {child};
    }

    /** Appends an id to the node at the end of a path. */
    method AddId(n: Node, id: Id, ghost path: Pattern)
      requires Valid() && path in at && at[path] == n
      modifies n`ids
      ensures Valid() && Registered() == old(Registered()) + {(path, id)}
    {
      hide Linked, RegisteredIn, WithChild, WithoutChild;
      ghost var edges, ids := EdgesOf(), IdsOf();
      OnlyAt(at, edges, root, path);
      n.ids := n.ids + [id];
      assert EdgesOf() == edges && IdsOf() == ids[path := n.ids];
      IdAdded(ids, path, id);
    }

    static method Without(ids: seq<Id>, id: Id) returns (out: seq<Id>)
      ensures forall x :: x in out <==> x in ids && x != id
    {
      out := [];
      for i := 0 to |ids|
        invariant forall x :: x in out <==> x in ids[..i] && x != id
      {
        assert ids[..i + 1] == ids[..i] + [ids[i]];
        if ids[i] != id {
          out := out + [ids[i]];
        }
      }
      assert ids[..|ids|] == ids;
    }

    /** Takes every copy of an id away from the node at the end of a path. */
    method RemoveId(n: Node, id: Id, ghost path: Pattern)
      requires Valid() && path in at && at[path] == n
      modifies n`ids
      ensures Valid() && Registered() == old(Registered()) - {(path, id)}
    {
      hide Linked, RegisteredIn, WithChild, WithoutChild;
      ghost var edges, ids := EdgesOf(), IdsOf();
      OnlyAt(at, edges, root, path);
      n.ids := Without(n.ids, id);
      assert EdgesOf() == edges && IdsOf() == ids[path := n.ids];
      IdTaken(ids, path, id, n.ids);
    }

    /** fix: follows or makes the path of the pattern, and adds the id to its last node or takes all
        its copies away. */
    method Fix(prefix: Bytes, ignore: seq<bool>, id: Id, op: Op)
      requires Valid()
      modifies this`at, this`nodes, nodes
      ensures Valid() && fresh(nodes - old(nodes))
      ensures op == Set ==> Registered() == old(Registered()) + {(PatternOf(prefix, ignore), id)}
      ensures op == Del ==> Registered() == old(Registered()) - {(PatternOf(prefix, ignore), id)}
    {
      hide Linked, RegisteredIn;
      var curNode := root;
      ghost var pattern := PatternOf(prefix, ignore);
      RootAt(at, EdgesOf(), root);
      for idx := 0 to |prefix|
        invariant Valid() && pattern[..idx] in at && at[pattern[..idx]] == curNode
        invariant fresh(nodes - old(nodes)) && Registered() == old(Registered())
      {
        var c := if idx < |ignore| && ignore[idx] then Any else Is(prefix[idx]);
        assert pattern[..idx + 1] == pattern[..idx] + [c];
        var child := curNode.Child(c);
        ChildAt(at, EdgesOf(), root, pattern[..idx], c);
        if child == null {
          if op == Del {
            NotRegistered(at, EdgesOf(), root, IdsOf(), pattern, idx + 1, id);
            return;
          }
          child := AddChild(curNode, c, pattern[..idx]);
        }
        curNode := child;
      }
      assert pattern[..|prefix|] == pattern;
      match op
      case Set => AddId(curNode, id, pattern);
      case Del => RemoveId(curNode, id, pattern);
    }

    /** Add and AddMatch. */
    method AddMatch(prefix: Bytes, ignore: seq<bool>, id: Id)
      requires Valid()
      modifies this`at, this`nodes, nodes
      ensures Valid() && fresh(nodes - old(nodes))
      ensures Registered() == old(Registered()) + {(PatternOf(prefix, ignore), id)}
    {
      Fix(prefix, ignore, id, Set);
    }

    /** The ids of all registered patterns that fit the beginning of the key, and no others. */
    method Get(key: Bytes) returns (out: set<Id>)
      requires Valid()
      ensures out == IdsFor(Registered(), key)
    {
      RootAt(at, EdgesOf(), root);
      AllBelow(IdsOf(), key);
      out := GetFrom(root, key, []);
    }

    method GetFrom(curNode: Node, key: Bytes, ghost path: Pattern) returns (out: set<Id>)
      requires Valid() && path in at && at[path] == curNode
      ensures out == Below(IdsOf(), path, key)
      decreases |key|
    {
      hide Below, Paths;
      out := set i | i in curNode.ids;
      BelowSplits(IdsOf(), path, key);
      if key == [] {
        return;
      }
      ChildAt(at, EdgesOf(), root, path, Any);
      if curNode.ignored != null {
        var res := GetFrom(curNode.ignored, key[1..], path + [Any]);
        out := out + res;
      } else {
        NothingBelow(at, root, IdsOf(), path + [Any], key[1..]);
      }
      ChildAt(at, EdgesOf(), root, path, Is(key[0]));
      if key[0] in curNode.children {
        var res := GetFrom(curNode.children[key[0]], key[1..], path + [Is(key[0])]);
        out := out + res;
      } else {
        NothingBelow(at, root, IdsOf(), path + [Is(key[0])], key[1..]);
      }
    }

    /** An empty node that is not the root is cut off. */
    method Cut(n: Node, c: Cell, ghost path: Pattern)
      requires Valid() && path in at && at[path] == n && n.Child(c) != null && n.Child(c).IsEmpty()
      modifies this`at, n`children, n`ignored
      ensures Valid() && Registered() == old(Registered()) && at == old(at) - {path + [c]} && path in at
      ensures n.Links() == WithoutChild(old(n.Links()), c)
    {
      hide Linked, RegisteredIn, WithoutChild;
      ChildAt(at, EdgesOf(), root, path, c);
      OnlyAt(at, EdgesOf(), root, path);
      LinkedShrinks(at, EdgesOf(), root, path, c);
      NoFewerIds(IdsOf(), path + [c]);
      Unlink(n, c, path, path + [c]);
    }

    method Unlink(n: Node, c: Cell, ghost path: Pattern, ghost last: Pattern)
      requires Known() && path in at && at[path] == n && last != path && forall p | p in at && p != path :: at[p] != n
      modifies this`at, n`children, n`ignored
      ensures Known() && at == old(at) - {last}
      ensures EdgesOf() == old(EdgesOf())[path := WithoutChild(old(EdgesOf())[path], c)] - {last}
      ensures IdsOf() == old(IdsOf()) - {last}
      ensures n.Links() == WithoutChild(old(n.Links()), c)
    {
      hide WithoutChild;
      DropChildAt(n, c, path);
      Forget(last);
    }

    method DropChildAt(n: Node, c: Cell, ghost path: Pattern)
      requires Known() && path in at && at[path] == n && forall p | p in at && p != path :: at[p] != n
      modifies n`children, n`ignored
      ensures EdgesOf() == old(EdgesOf())[path := WithoutChild(old(EdgesOf())[path], c)] && IdsOf() == old(IdsOf())
      ensures n.Links() == WithoutChild(old(n.Links()), c)
    {
      hide WithoutChild;
      n.DropChild(c);
    }

    ghost method Forget(last: Pattern)
      requires Known()
      modifies this`at
      ensures Known() && at == old(at) - {last}
      ensures EdgesOf() == old(EdgesOf()) - {last} && IdsOf() == old(IdsOf()) - {last}
    {
      at := at - {last};
    }

    /** Removes what is empty below one child, and then the child itself if nothing is left of it.
        The other nodes stay as they are, and this one keeps its ids and its other children. */
    method PruneChild(n: Node, c: Cell, ghost path: Pattern, ghost height: nat)
      requires Valid() && path in at && at[path] == n && n.Child(c) != null && forall p | p in at :: |p| <= height
      modifies this`at, nodes
      ensures Valid() && Registered() == old(Registered())
      ensures at.Keys <= old(at.Keys) && forall p | p in at :: at[p] == old(at)[p]
      ensures forall p | p in old(at) && !Behind(path, c, p) :: p in at
      ensures forall p | p in at && !Behind(path, c, p) && p != path :: unchanged(at[p])
      ensures n.ids == old(n.ids)
      ensures n.Links() == old(n.Links()) || n.Links() == WithoutChild(old(n.Links()), c)
      ensures forall p | p in at && Behind(path, c, p) :: !at[p].IsEmpty()
      decreases height - |path|, 0
    {
      hide Linked, RegisteredIn, WithoutChild, Behind, ChildIn;
      ChildAt(at, EdgesOf(), root, path, c);
      OnlyAt(at, EdgesOf(), root, path);
      BehindIs(path, c);
      var child := n.Child(c);
      var empty := RemoveEmpty(child, path + [c], height);
      if empty {
        Cut(n, c, path);
        NoneBehind(at, EdgesOf(), root, path + [c]);
      } else {
        assert forall p | p in at && path + [c] <= p :: p == path + [c] || path + [c] < p;
      }
    }

    /** removeEmpty: depth first, the hole before the bytes, and the bytes in any order. */
    method RemoveEmpty(curNode: Node, ghost path: Pattern, ghost height: nat) returns (empty: bool)
      requires Valid() && path in at && at[path] == curNode && forall p | p in at :: |p| <= height
      modifies this`at, nodes
      ensures Valid() && Registered() == old(Registered())
      ensures at.Keys <= old(at.Keys) && forall p | p in at :: at[p] == old(at)[p]
      ensures forall p | p in old(at) && !(path < p) :: p in at
      ensures forall p | p in at && !(path <= p) :: unchanged(at[p])
      ensures curNode.ids == old(curNode.ids)
      ensures forall p | p in at && path < p :: !at[p].IsEmpty()
      ensures empty <==> curNode.IsEmpty()
      decreases height - |path|, 1
    {
      hide Linked, RegisteredIn;
      if curNode.ignored != null {
        PruneChild(curNode, Any, path, height);
      }
      NoOtherPath(at, EdgesOf(), root, path);
      var todo := curNode.children.Keys;
      while todo != {}
        invariant Valid() && Registered() == old(Registered())
        invariant at.Keys <= old(at.Keys) && forall p | p in at :: at[p] == old(at)[p]
        invariant forall p | p in old(at) && !(path < p) :: p in at
        invariant forall p | p in at && !(path <= p) :: unchanged(at[p])
        invariant curNode.ids == old(curNode.ids)
        invariant todo <= curNode.children.Keys
        invariant forall p | p in at && path < p && !(p[|path|].Is? && p[|path|].byte in todo) :: !at[p].IsEmpty()
      {
        var b :| b in todo;
        PruneChild(curNode, Is(b), path, height);
        todo := todo - {b};
      }
      empty := curNode.IsEmpty();
    }

    /** DeleteMatch: the id is taken away, and every node that has become empty is pruned; the root
        stays. */
    method DeleteMatch(prefix: Bytes, ignore: seq<bool>, id: Id)
      requires Valid()
      modifies this`at, this`nodes, nodes
      ensures Valid() && Pruned() && fresh(nodes - old(nodes))
      ensures Registered() == old(Registered()) - {(PatternOf(prefix, ignore), id)}
    {
      Fix(prefix, ignore, id, Del);
      ghost var height := Deepest(at.Keys);
      RootAt(at, EdgesOf(), root);
      var _ := RemoveEmpty(root, [], height);
    }
  }

  lemma RootAt(at: Nodes, edges: Edges, root: Node)
    requires Linked(at, edges, root)
    ensures [] in at && at[[]] == root
  {
  }

  lemma OnlyAt(at: Nodes, edges: Edges, root: Node, path: Pattern)
    requires Linked(at, edges, root) && path in at
    ensures forall p | p in at && p != path :: at[p] != at[path]
  {
  }

  lemma ChildAt(at: Nodes, edges: Edges, root: Node, path: Pattern, c: Cell)
    requires Linked(at, edges, root) && path in at
    ensures path in edges && ChildOk(at, edges, path, c)
  {
  }

  lemma NoMoreIds(ids: IdLists, path: Pattern)
    requires path !in ids
    ensures RegisteredIn(ids[path := []]) == RegisteredIn(ids)
  {
  }

  lemma NoFewerIds(ids: IdLists, path: Pattern)
    requires path in ids && ids[path] == []
    ensures RegisteredIn(ids - {path}) == RegisteredIn(ids)
  {
  }

  lemma IdAdded(ids: IdLists, path: Pattern, id: Id)
    requires path in ids
    ensures RegisteredIn(ids[path := ids[path] + [id]]) == RegisteredIn(ids) + {(path, id)}
  {
  }

  lemma IdTaken(ids: IdLists, path: Pattern, id: Id, list: seq<Id>)
    requires path in ids && forall x :: x in list <==> x in ids[path] && x != id
    ensures RegisteredIn(ids[path := list]) == RegisteredIn(ids) - {(path, id)}
  {
  }

  lemma NotRegistered(at: Nodes, edges: Edges, root: Node, ids: IdLists, pattern: Pattern, k: nat, id: Id)
    requires Linked(at, edges, root) && ids.Keys == at.Keys && k <= |pattern| && pattern[..k] !in at
    ensures (pattern, id) !in RegisteredIn(ids)
  {
    if pattern in at {
      PrefixIn(at, root, pattern, k);
    }
  }

  lemma LastCell(p: Pattern, d: Cell, q: Pattern, c: Cell)
    ensures p + [d] == q + [c] <==> p == q && d == c
  {
    if p + [d] == q + [c] {
      assert (p + [d])[..|p|] == p && (q + [c])[..|q|] == q;
      assert (p + [d])[|p|] == d && (q + [c])[|q|] == c;
    }
  }
}
