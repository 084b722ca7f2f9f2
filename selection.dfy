/**
 * What the editor has selected: nothing, a list of scene graph nodes, or a set
 * of navigation mesh entities; the node list's custom equality and the query
 * for the selected nodes that are not below another selected node.
 */
module Selections {
  import opened Pools
  import opened Entities
  import opened SceneGraph

  datatype GraphSelection = GraphSelection(nodes: seq<Handle>)

  datatype NavmeshEntity = VertexEntity(vertex: Handle) | EdgeEntity(edge: NavmeshEdge)

  /** A selection inside one navigation mesh. */
  datatype NavmeshSelection = NavmeshSelection(navmesh: Handle, entities: seq<NavmeshEntity>)

  datatype Selection =
    | NoSelection
    | GraphNodes(graph: GraphSelection)
    | NavmeshEntities(navmesh: NavmeshSelection)

  /**
   * `GraphSelection::eq`: an empty selection equals only an empty one; otherwise
   * every node of `a` must occur in `b` (a subset test, so order and duplicates
   * do not matter and the relation is not symmetric).
   */
  predicate GraphSelectionEq(a: GraphSelection, b: GraphSelection)
  {
    if |a.nodes| == 0 && |b.nodes| != 0 then false
    else forall i :: 0 <= i < |a.nodes| ==> a.nodes[i] in b.nodes
  }

  /** The nested search loops of `GraphSelection::eq`. */
  method Equals(a: GraphSelection, b: GraphSelection) returns (r: bool)
    ensures r == GraphSelectionEq(a, b)
  {
    if |a.nodes| == 0 && |b.nodes| != 0 {
      return false;
    }
    var i := 0;
    while i < |a.nodes|
      invariant 0 <= i <= |a.nodes|
      invariant forall k :: 0 <= k < i ==> a.nodes[k] in b.nodes
    {
      var node := a.nodes[i];
      var found := false;
      var j := 0;
      while j < |b.nodes|
        invariant 0 <= j <= |b.nodes|
        invariant !found && node !in b.nodes[..j]
      {
        if b.nodes[j] == node {
          found := true;
          break;
        }
        j := j + 1;
      }
      if !found {
        assert b.nodes[..j] == b.nodes;
        return false;
      }
      i := i + 1;
    }
    return true;
  }

  /** An empty selection equals exactly the empty selections, in either position. */
  lemma EqEmpty(a: GraphSelection, b: GraphSelection)
    requires |a.nodes| == 0
    ensures GraphSelectionEq(a, b) <==> |b.nodes| == 0
    ensures GraphSelectionEq(b, a) <==> |b.nodes| == 0
  {
    if |b.nodes| != 0 {
      assert b.nodes[0] !in a.nodes;
    }
  }

  /** Selections holding the same nodes are equal both ways, whatever their order. */
  lemma EqIgnoresOrder(a: GraphSelection, b: GraphSelection)
    requires forall h :: h in a.nodes <==> h in b.nodes
    ensures GraphSelectionEq(a, b) && GraphSelectionEq(b, a)
  {
    if |b.nodes| != 0 {
      assert b.nodes[0] in a.nodes;
    }
    if |a.nodes| != 0 {
      assert a.nodes[0] in b.nodes;
    }
  }

  /** A selection equals a longer one that contains it, but not the other way round. */
  lemma EqNotSymmetric()
    ensures var x := Handle(1, 1);
      var y := Handle(2, 1);
      GraphSelectionEq(GraphSelection([x]), GraphSelection([x, y]))
      && !GraphSelectionEq(GraphSelection([x, y]), GraphSelection([x]))
  {
    var x := Handle(1, 1);
    var y := Handle(2, 1);
    assert GraphSelection([x, y]).nodes[1] !in [x];
  }

  /** Derived equality of `Selection`, which uses `GraphSelectionEq` for node lists. */
  predicate SelectionEq(x: Selection, y: Selection)
  {
    match (x, y)
    case (NoSelection, NoSelection) => true
    case (GraphNodes(a), GraphNodes(b)) => GraphSelectionEq(a, b)
    case (NavmeshEntities(a), NavmeshEntities(b)) => a == b
    case _ => false
  }

  /** Selections of different kinds are never equal; equal values always are. */
  lemma SelectionEqKinds(x: Selection, y: Selection)
    ensures SelectionEq(x, y) ==> (x.NoSelection? <==> y.NoSelection?) && (x.GraphNodes? <==> y.GraphNodes?)
    ensures x == y ==> SelectionEq(x, y)
  {
  }

  function SelectionIsEmpty(s: Selection): bool
  {
    match s
    case NoSelection => true
    case GraphNodes(g) => |g.nodes| == 0
    case NavmeshEntities(n) => |n.entities| == 0
  }

  /** Nodes of `ns` other than `NONE`, in order. */
  function WithoutNone(ns: seq<Handle>): (r: seq<Handle>)
    ensures NONE !in r
    ensures multiset(r) == multiset(ns)[NONE := 0]
  {
    if ns == [] then []
    else
      assert ns == [ns[0]] + ns[1..];
      if ns[0] == NONE then WithoutNone(ns[1..])
      else [ns[0]] + WithoutNone(ns[1..])
  }

  /** `from_list`: keeps every handle that is not `NONE`. */
  function FromList(ns: seq<Handle>): (r: GraphSelection)
    ensures NONE !in r.nodes
    ensures multiset(r.nodes) == multiset(ns)[NONE := 0]
  {
    GraphSelection(WithoutNone(ns))
  }

  /** `from_list` keeps exactly the handles of the list that are not `NONE`. */
  lemma FromListMembers(ns: seq<Handle>)
    ensures forall h :: h in FromList(ns).nodes <==> h in ns && h != NONE
  {
    var r := FromList(ns).nodes;
    forall h ensures h in r <==> h in ns && h != NONE {
      assert h in r <==> multiset(r)[h] > 0;
      assert h in ns <==> multiset(ns)[h] > 0;
    }
  }

  /** `single_or_empty`. */
  function SingleOrEmpty(h: Handle): GraphSelection
  {
    if h == NONE then GraphSelection([]) else GraphSelection([h])
  }

  /** `single_or_empty(h)` is `from_list` of the one-element list. */
  lemma SingleOrEmptyIsFromList(h: Handle)
    ensures SingleOrEmpty(h) == FromList([h])
    ensures h != NONE ==> |SingleOrEmpty(h).nodes| == 1
  {
    assert [h][1..] == [];
    assert WithoutNone([]) == [];
  }

  function Contains(s: GraphSelection, h: Handle): bool
  {
    h in s.nodes
  }

  function IsMultiSelection(s: GraphSelection): bool { |s.nodes| > 1 }

  function IsSingleSelection(s: GraphSelection): bool { |s.nodes| == 1 }

  function IsEmpty(s: GraphSelection): bool { |s.nodes| == 0 }

  /**
   * The size tests read the selected nodes: an empty selection contains no node, a
   * single selection contains its first node and no other, and a selection is a
   * multi-selection exactly when it is neither.
   */
  lemma SizeTests(s: GraphSelection)
    ensures IsEmpty(s) <==> forall h :: !Contains(s, h)
    ensures IsSingleSelection(s) ==> forall h :: Contains(s, h) <==> h == s.nodes[0]
    ensures IsMultiSelection(s) <==> !IsEmpty(s) && !IsSingleSelection(s)
  {
    if !IsEmpty(s) {
      assert Contains(s, s.nodes[0]);
    }
  }

  /** `extend`: appends the other selection's nodes. */
  function Extend(s: GraphSelection, other: GraphSelection): (r: GraphSelection)
    ensures forall h :: Contains(r, h) <==> Contains(s, h) || Contains(other, h)
    ensures |r.nodes| == |s.nodes| + |other.nodes|
    ensures r.nodes[..|s.nodes|] == s.nodes && r.nodes[|s.nodes|..] == other.nodes
  {
    GraphSelection(s.nodes + other.nodes)
  }

  /**
   * The sizes of built selections: `single_or_empty(h)` is empty exactly for the
   * null handle and single otherwise, and extending keeps a selection empty only
   * when both parts are, and makes it a multi-selection when both are not.
   */
  lemma BuiltSizes(h: Handle, s: GraphSelection, other: GraphSelection)
    ensures IsEmpty(SingleOrEmpty(h)) <==> h == NONE
    ensures IsSingleSelection(SingleOrEmpty(h)) <==> h != NONE
    ensures IsEmpty(Extend(s, other)) <==> IsEmpty(s) && IsEmpty(other)
    ensures !IsEmpty(s) && !IsEmpty(other) ==> IsMultiSelection(Extend(s, other))
  {
  }

  /** The list after `insert_or_exclude(h)`: first occurrence removed, or `h` appended. */
  function Toggled(ns: seq<Handle>, h: Handle): seq<Handle>
  {
    if h in ns then RemoveFirst(ns, h) else ns + [h]
  }

  /** `insert_or_exclude`: finds the first position of `h`, then removes it or appends `h`. */
  method InsertOrExclude(s: GraphSelection, h: Handle) returns (r: GraphSelection)
    ensures r.nodes == Toggled(s.nodes, h)
  {
    var nodes := s.nodes;
    var position := 0;
    while position < |nodes| && nodes[position] != h
      invariant 0 <= position <= |nodes|
      invariant h !in nodes[..position]
    {
      position := position + 1;
    }
    if position < |nodes| {
      assert IndexOf(nodes, h) == position by {
        IndexOfUnique(nodes, h, position);
      }
      nodes := nodes[..position] + nodes[position + 1..];
    } else {
      assert nodes[..position] == nodes;
      nodes := nodes + [h];
    }
    r := GraphSelection(nodes);
  }

  lemma IndexOfUnique(s: seq<Handle>, x: Handle, i: nat)
    requires i < |s| && s[i] == x && x !in s[..i]
    ensures IndexOf(s, x) == i
  {
  }

  predicate NoDuplicates(ns: seq<Handle>)
  {
    forall a, b :: 0 <= a < b < |ns| ==> ns[a] != ns[b]
  }

  lemma NoDuplicatesMultiset(ns: seq<Handle>)
    ensures NoDuplicates(ns) <==> forall h :: multiset(ns)[h] <= 1
  {
    if NoDuplicates(ns) {
      forall h ensures multiset(ns)[h] <= 1 {
        CountAtMostOne(ns, h);
      }
    }
    if forall h :: multiset(ns)[h] <= 1 {
      forall a, b | 0 <= a < b < |ns| ensures ns[a] != ns[b] {
        if ns[a] == ns[b] {
          TwoOccurrences(ns, a, b);
        }
      }
    }
  }

  lemma TwoOccurrences(ns: seq<Handle>, a: nat, b: nat)
    requires a < b < |ns| && ns[a] == ns[b]
    ensures multiset(ns)[ns[a]] >= 2
  {
    assert ns == ns[..b] + ns[b..];
    assert ns[a] in ns[..b];
    assert ns[b] in ns[b..];
  }

  lemma {:induction false} CountAtMostOne(ns: seq<Handle>, h: Handle)
    requires NoDuplicates(ns)
    ensures multiset(ns)[h] <= 1
  {
    if ns != [] {
      assert ns == [ns[0]] + ns[1..];
      assert NoDuplicates(ns[1..]) by {
        forall a, b | 0 <= a < b < |ns[1..]| ensures ns[1..][a] != ns[1..][b] {
          assert ns[1..][a] == ns[a + 1] && ns[1..][b] == ns[b + 1];
        }
      }
      CountAtMostOne(ns[1..], h);
      if ns[0] == h {
        assert h !in ns[1..] by {
          forall k | 0 <= k < |ns[1..]| ensures ns[1..][k] != h {
            assert ns[1..][k] == ns[k + 1];
          }
        }
      }
    }
  }

  /**
   * On a selection without duplicates `insert_or_exclude` flips the membership of
   * `h`, keeps every other node, keeps the list free of duplicates, and applying it
   * twice to a selection not holding `h` gives the selection back.
   */
  lemma ToggleFlipsMembership(ns: seq<Handle>, h: Handle)
    requires NoDuplicates(ns)
    ensures h in Toggled(ns, h) <==> h !in ns
    ensures forall x :: x != h ==> (x in Toggled(ns, h) <==> x in ns)
    ensures NoDuplicates(Toggled(ns, h))
    ensures h !in ns ==> Toggled(Toggled(ns, h), h) == ns
  {
    NoDuplicatesMultiset(ns);
    var t := Toggled(ns, h);
    if h in ns {
      assert multiset(t) == multiset(ns) - multiset{h};
      assert multiset(t)[h] == 0;
      forall x | x != h ensures x in t <==> x in ns {
        assert multiset(t)[x] == multiset(ns)[x];
      }
    } else {
      assert multiset(t) == multiset(ns) + multiset{h};
      var tt := Toggled(t, h);
      assert IndexOf(t, h) == |ns| by {
        IndexOfUnique(t, h, |ns|);
      }
      assert tt == t[..|ns|] + t[|ns| + 1..];
      assert tt == ns;
    }
    NoDuplicatesMultiset(t);
  }

  /**
   * `is_descendant_of(handle, other)`: some child of `other` is `handle` or has it
   * below. The recursion depth is bounded by `fuel`.
   */
  function IsDescendantOf(g: Graph, handle: Handle, other: Handle, fuel: nat): bool
    requires WellLinked(g) && IsLive(g.pool, other)
    decreases fuel, 1
  {
    fuel > 0 && AnyChildReaches(g, handle, Children(g, other), fuel - 1)
  }

  /** The loop of `is_descendant_of` over the children `cs`. */
  function AnyChildReaches(g: Graph, handle: Handle, cs: seq<Handle>, fuel: nat): bool
    requires WellLinked(g) && forall c :: c in cs ==> IsLive(g.pool, c)
    decreases fuel, 2, |cs|
  {
    |cs| > 0 && (cs[0] == handle || IsDescendantOf(g, handle, cs[0], fuel) || AnyChildReaches(g, handle, cs[1..], fuel))
  }

  /** Recursion depth used for `is_descendant_of`: a tree is never deeper than its pool. */
  function Depth(g: Graph): nat { |g.pool.records| }

  /** A direct child is a descendant, and a descendant of a child is a descendant. */
  lemma DescendantOfChild(g: Graph, handle: Handle, other: Handle, i: nat, fuel: nat)
    requires WellLinked(g) && IsLive(g.pool, other) && fuel > 0 && i < |Children(g, other)|
    ensures var c := Children(g, other)[i];
      (c == handle || IsDescendantOf(g, handle, c, fuel - 1)) ==> IsDescendantOf(g, handle, other, fuel)
  {
    AnyChildReachesAt(g, handle, Children(g, other), i, fuel - 1);
  }

  lemma {:induction false} AnyChildReachesAt(g: Graph, handle: Handle, cs: seq<Handle>, i: nat, fuel: nat)
    requires WellLinked(g) && (forall c :: c in cs ==> IsLive(g.pool, c)) && i < |cs|
    ensures (cs[i] == handle || IsDescendantOf(g, handle, cs[i], fuel)) ==> AnyChildReaches(g, handle, cs, fuel)
    decreases i
  {
    if i > 0 {
      assert cs[1..][i - 1] == cs[i];
      AnyChildReachesAt(g, handle, cs[1..], i - 1, fuel);
    }
  }

  /** Some node of `all` has `n` below it. */
  predicate HasSelectedAncestor(g: Graph, n: Handle, all: seq<Handle>)
    requires WellLinked(g) && forall h :: h in all ==> IsLive(g.pool, h)
  {
    exists o :: o in all && IsDescendantOf(g, n, o, Depth(g))
  }

  /** Nodes of `ns`, in order, that are not below any node of `all`. */
  function RootsAmong(g: Graph, all: seq<Handle>, ns: seq<Handle>): seq<Handle>
    requires WellLinked(g) && forall h :: h in all ==> IsLive(g.pool, h)
  {
    if ns == [] then []
    else
      var last := ns[|ns| - 1];
      RootsAmong(g, all, ns[..|ns| - 1]) + if HasSelectedAncestor(g, last, all) then [] else [last]
  }

  /** `root_nodes`: the selected nodes that are not below another selected node. */
  function RootNodesOf(s: GraphSelection, g: Graph): seq<Handle>
    requires WellLinked(g) && forall h :: h in s.nodes ==> IsLive(g.pool, h)
  {
    RootsAmong(g, s.nodes, s.nodes)
  }

  /**
   * The roots are exactly the selected nodes without a selected ancestor, kept in
   * selection order (a subsequence of the selection).
   */
  lemma {:induction false} RootsAmongExact(g: Graph, all: seq<Handle>, ns: seq<Handle>)
    requires WellLinked(g) && forall h :: h in all ==> IsLive(g.pool, h)
    ensures forall h :: h in RootsAmong(g, all, ns) <==> h in ns && !HasSelectedAncestor(g, h, all)
    ensures |RootsAmong(g, all, ns)| <= |ns|
    ensures forall h :: multiset(RootsAmong(g, all, ns))[h] <= multiset(ns)[h]
    decreases |ns|
  {
    if ns != [] {
      var init := ns[..|ns| - 1];
      RootsAmongExact(g, all, init);
      assert ns == init + [ns[|ns| - 1]];
    }
  }

  /** Whether every node is live; `root_nodes` panics on the first dead one. */
  method AllLive(g: Graph, nodes: seq<Handle>) returns (ok: bool)
    ensures ok <==> forall h :: h in nodes ==> IsLive(g.pool, h)
  {
    for k := 0 to |nodes|
      invariant forall h :: h in nodes[..k] ==> IsLive(g.pool, h)
    {
      if !IsLive(g.pool, nodes[k]) {
        return false;
      }
      assert nodes[..k + 1] == nodes[..k] + [nodes[k]];
    }
    assert nodes[..|nodes|] == nodes;
    return true;
  }

  /** The loops of `root_nodes`, with the early exit of the inner search. */
  method RootNodes(s: GraphSelection, g: Graph) returns (roots: seq<Handle>)
    requires WellLinked(g) && forall h :: h in s.nodes ==> IsLive(g.pool, h)
    ensures roots == RootNodesOf(s, g)
  {
    roots := [];
    var i := 0;
    while i < |s.nodes|
      invariant 0 <= i <= |s.nodes|
      invariant roots == RootsAmong(g, s.nodes, s.nodes[..i])
    {
      var node := s.nodes[i];
      var descendant := false;
      var j := 0;
      while j < |s.nodes|
        invariant 0 <= j <= |s.nodes|
        invariant !descendant
        invariant forall k :: 0 <= k < j ==> !IsDescendantOf(g, node, s.nodes[k], Depth(g))
      {
        if IsDescendantOf(g, node, s.nodes[j], Depth(g)) {
          descendant := true;
          break;
        }
        j := j + 1;
      }
      if !descendant {
        roots := roots + [node];
      }
      assert s.nodes[..i + 1][..i] == s.nodes[..i];
      i := i + 1;
    }
    assert s.nodes[..i] == s.nodes;
  }
}
