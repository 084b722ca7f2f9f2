/**
 * The scene graph operations the editor calls (rg3d's `Graph`): adding a node
 * under the root, re-parenting, reserving and restoring single nodes and whole
 * sub-graphs, and the depth-first handle traversal.
 */
module SceneGraph {
  import opened Pools
  import opened Entities

  datatype Graph = Graph(pool: Pool<Node>, root: Handle)

  /** `Graph::new`: a graph holding only its root node. */
  function NewGraph(): (g: Graph)
    ensures IsLive(g.pool, g.root) && Get(g.pool, g.root).children == [] && Valid(g.pool)
    ensures forall h :: IsLive(g.pool, h) ==> h == g.root
  {
    Graph(Pool([Record(1, Occupied(Node(NONE, [], map[], None, None)))]), Handle(0, 1))
  }

  function Children(g: Graph, h: Handle): seq<Handle>
    requires IsLive(g.pool, h)
  {
    Get(g.pool, h).children
  }

  /** The children of every live node are live. */
  ghost predicate WellLinked(g: Graph)
  {
    forall h :: IsLive(g.pool, h) ==> forall c :: c in Get(g.pool, h).children ==> IsLive(g.pool, c)
  }

  /** Detaching `h` from its parent reads the parent, which must then be live. */
  predicate CanUnlink(g: Graph, h: Handle)
  {
    IsLive(g.pool, h) && (Get(g.pool, h).parent == NONE || IsLive(g.pool, Get(g.pool, h).parent))
  }

  /** Apart from `h`, every node live in both graphs keeps its parent and its own data. */
  ghost predicate FrameOutside(g: Graph, r: Graph, h: Handle)
  {
    forall x :: IsLive(g.pool, x) && IsLive(r.pool, x) && x != h ==>
      Get(r.pool, x).parent == Get(g.pool, x).parent && RawCopy(Get(r.pool, x)) == RawCopy(Get(g.pool, x))
  }

  /** Clears the parent of `h` and removes `h` from the old parent's children. */
  function Unlink(g: Graph, h: Handle): (r: Graph)
    requires CanUnlink(g, h)
    ensures r.root == g.root && SameLive(g.pool, r.pool)
    ensures FrameOutside(g, r, h) && RawCopy(Get(r.pool, h)) == RawCopy(Get(g.pool, h))
    ensures |r.pool.records| == |g.pool.records|
    ensures forall i :: 0 <= i < |g.pool.records| && !g.pool.records[i].payload.Occupied? ==>
      r.pool.records[i] == g.pool.records[i]
    ensures Get(r.pool, h).parent == NONE
    ensures Get(g.pool, h).parent != h ==> Get(r.pool, h) == Get(g.pool, h).(parent := NONE)
    ensures var par := Get(g.pool, h).parent;
      par != NONE && par != h ==>
        Get(r.pool, par) == Get(g.pool, par).(children := RemoveFirst(Get(g.pool, par).children, h))
    ensures forall x :: IsLive(g.pool, x) && x != h && x != Get(g.pool, h).parent ==> Get(r.pool, x) == Get(g.pool, x)
    ensures forall t :: IsReserved(r.pool, t) <==> IsReserved(g.pool, t)
  {
    var n := Get(g.pool, h);
    var p1 := Set(g.pool, h, n.(parent := NONE));
    SetKeepsOthers(g.pool, h, n.(parent := NONE));
    if n.parent != NONE then
      var pn := Get(p1, n.parent);
      SetKeepsOthers(p1, n.parent, pn.(children := RemoveFirst(pn.children, h)));
      Graph(Set(p1, n.parent, pn.(children := RemoveFirst(pn.children, h))), g.root)
    else
      Graph(p1, g.root)
  }

  /** Makes `child` the last child of `parent`, detaching it from its old parent first. */
  function LinkNodes(g: Graph, child: Handle, parent: Handle): (r: Graph)
    requires CanUnlink(g, child) && IsLive(g.pool, parent)
    ensures r.root == g.root && SameLive(g.pool, r.pool)
    ensures Get(r.pool, child).parent == parent
    ensures var cs := Get(r.pool, parent).children; |cs| > 0 && cs[|cs| - 1] == child
    ensures child != parent && Get(g.pool, child).parent != child ==>
      Get(r.pool, child) == Get(g.pool, child).(parent := parent)
    ensures forall x :: IsLive(g.pool, x) && x != child && x != parent && x != Get(g.pool, child).parent ==>
      Get(r.pool, x) == Get(g.pool, x)
    ensures forall t :: IsReserved(r.pool, t) <==> IsReserved(g.pool, t)
    ensures |r.pool.records| == |g.pool.records|
  {
    var g1 := Unlink(g, child);
    var p2 := Set(g1.pool, child, Get(g1.pool, child).(parent := parent));
    var pn := Get(p2, parent);
    Graph(Set(p2, parent, pn.(children := pn.children + [child])), g.root)
  }

  /** Linking changes only the child's parent and two children lists. */
  lemma LinkNodesFrame(g: Graph, child: Handle, parent: Handle)
    requires CanUnlink(g, child) && IsLive(g.pool, parent)
    ensures var r := LinkNodes(g, child, parent);
      (forall x :: IsLive(g.pool, x) && x != child ==> Get(r.pool, x).parent == Get(g.pool, x).parent)
      && forall x :: IsLive(g.pool, x) ==> RawCopy(Get(r.pool, x)) == RawCopy(Get(g.pool, x))
  {
    var g1 := Unlink(g, child);
    var p2 := Set(g1.pool, child, Get(g1.pool, child).(parent := parent));
    var pn := Get(p2, parent);
    var p3 := Set(p2, parent, pn.(children := pn.children + [child]));
    assert LinkNodes(g, child, parent) == Graph(p3, g.root);
    forall x | IsLive(g.pool, x)
      ensures RawCopy(Get(p3, x)) == RawCopy(Get(g.pool, x))
      ensures x != child ==> Get(p3, x).parent == Get(g.pool, x).parent
    {
      assert RawCopy(Get(g1.pool, x)) == RawCopy(Get(g.pool, x));
      assert x != child ==> Get(g1.pool, x).parent == Get(g.pool, x).parent;
    }
  }

  /** Linking removes the child from its old parent's children, when that is another node. */
  lemma LinkNodesLeavesOldParent(g: Graph, child: Handle, parent: Handle)
    requires CanUnlink(g, child) && IsLive(g.pool, parent)
    ensures var prev := Get(g.pool, child).parent;
      prev != NONE && prev != child && prev != parent ==>
        Get(LinkNodes(g, child, parent).pool, prev).children == RemoveFirst(Get(g.pool, prev).children, child)
  {
    var prev := Get(g.pool, child).parent;
    if prev != NONE && prev != child && prev != parent {
      var g1 := Unlink(g, child);
      var p2 := Set(g1.pool, child, Get(g1.pool, child).(parent := parent));
      SetKeepsOthers(g1.pool, child, Get(g1.pool, child).(parent := parent));
      var pn := Get(p2, parent);
      SetKeepsOthers(p2, parent, pn.(children := pn.children + [child]));
    }
  }

  /**
   * `add_node`: spawns the node and links it under the root. The new node's own
   * child list is cleared (re-linking children it carries is not modelled).
   */
  function AddNode(g: Graph, n: Node): (r: (Graph, Handle))
    requires IsLive(g.pool, g.root)
    requires n.parent == NONE || IsLive(g.pool, n.parent)
    ensures r.0.root == g.root && IsLive(r.0.pool, r.1) && !IsLive(g.pool, r.1)
    ensures Get(r.0.pool, r.1).parent == g.root && RawCopy(Get(r.0.pool, r.1)) == RawCopy(n)
    ensures forall h :: IsLive(r.0.pool, h) <==> h == r.1 || IsLive(g.pool, h)
    ensures forall t :: IsReserved(r.0.pool, t) <==> IsReserved(g.pool, t)
    ensures FrameOutside(g, r.0, r.1)
  {
    var (p1, h) := Spawn(g.pool, n.(children := []));
    LinkNodesFrame(Graph(p1, g.root), h, g.root);
    (LinkNodes(Graph(p1, g.root), h, g.root), h)
  }

  /** `take_reserve`: detaches the node from its parent, then reserves its slot. */
  function TakeReserveNode(g: Graph, h: Handle): (r: (Graph, Ticket, Node))
    requires CanUnlink(g, h)
    ensures r.0.root == g.root && r.1 == Ticket(h.index) && IsReserved(r.0.pool, r.1)
    ensures TicketHandle(r.0.pool, r.1) == h
    ensures Get(g.pool, h).parent != h ==> r.2 == Get(g.pool, h).(parent := NONE)
    ensures r.2.parent == NONE && RawCopy(r.2) == RawCopy(Get(g.pool, h))
    ensures FrameOutside(g, r.0, h)
    ensures |r.0.pool.records| == |g.pool.records| && r.0.pool.records[h.index].generation == h.generation
    ensures forall i :: 0 <= i < |g.pool.records| && !g.pool.records[i].payload.Occupied? ==>
      r.0.pool.records[i] == g.pool.records[i]
    ensures forall x :: IsLive(r.0.pool, x) <==> IsLive(g.pool, x) && x != h
    ensures forall x :: IsLive(g.pool, x) && x != h && x != Get(g.pool, h).parent ==> Get(r.0.pool, x) == Get(g.pool, x)
    ensures forall t :: IsReserved(r.0.pool, t) <==> IsReserved(g.pool, t) || t == r.1
  {
    var g1 := Unlink(g, h);
    var (p2, t, n) := TakeReserve(g1.pool, h);
    (Graph(p2, g.root), t, n)
  }

  /** `put_back`: restores the node into its reserved slot and links it under the root. */
  function PutBackNode(g: Graph, t: Ticket, n: Node): (r: (Graph, Handle))
    requires IsReserved(g.pool, t) && IsLive(g.pool, g.root)
    requires n.parent == NONE || IsLive(g.pool, n.parent)
    ensures r.0.root == g.root && r.1 == TicketHandle(g.pool, t)
    ensures IsLive(r.0.pool, r.1) && Get(r.0.pool, r.1).parent == g.root
    ensures n.parent != r.1 ==> Get(r.0.pool, r.1) == n.(parent := g.root)
    ensures RawCopy(Get(r.0.pool, r.1)) == RawCopy(n) && FrameOutside(g, r.0, r.1)
    ensures forall x :: IsLive(r.0.pool, x) <==> IsLive(g.pool, x) || x == r.1
    ensures forall x :: IsLive(g.pool, x) && x != g.root && x != n.parent ==> Get(r.0.pool, x) == Get(g.pool, x)
    ensures forall u :: IsReserved(r.0.pool, u) <==> IsReserved(g.pool, u) && u.index != t.index
  {
    var (p1, h) := PutBack(g.pool, t, n);
    LinkNodesFrame(Graph(p1, g.root), h, g.root);
    (LinkNodes(Graph(p1, g.root), h, g.root), h)
  }

  /** `forget_ticket`: the reserved slot of a node becomes free. */
  function ForgetNode(g: Graph, t: Ticket): (r: Graph)
    requires IsReserved(g.pool, t)
    ensures r.root == g.root && SameLive(g.pool, r.pool)
    ensures forall x :: IsLive(g.pool, x) ==> Get(r.pool, x) == Get(g.pool, x)
    ensures forall u :: IsReserved(r.pool, u) <==> IsReserved(g.pool, u) && u.index != t.index
  {
    Graph(ForgetTicket(g.pool, t), g.root)
  }

  /**
   * The handles `traverse_handle_iter` yields from a stack: pop a handle, yield it,
   * push its children. Indexing a dead handle panics (`None`). Each step visits
   * one node and `fuel` bounds the number of steps: a tree never needs more steps
   * than its pool has slots, so running out of fuel also gives `None`.
   */
  function TraverseFrom(g: Graph, stack: seq<Handle>, fuel: nat): (r: Option<seq<Handle>>)
    ensures r.Some? ==> forall h :: h in r.value ==> IsLive(g.pool, h)
    ensures r.Some? && stack != [] ==> |r.value| > 0 && r.value[0] == stack[|stack| - 1]
    decreases fuel
  {
    if stack == [] then Some([])
    else if fuel == 0 then None
    else
      var h := stack[|stack| - 1];
      if !IsLive(g.pool, h) then None
      else
        match TraverseFrom(g, stack[..|stack| - 1] + Children(g, h), fuel - 1)
        case None => None
        case Some(rest) => Some([h] + rest)
  }

  /**
   * A completed traversal yields everything that was on the stack and every child
   * of everything it yields.
   */
  lemma {:induction false} TraverseFromClosed(g: Graph, stack: seq<Handle>, fuel: nat)
    requires TraverseFrom(g, stack, fuel).Some?
    ensures var r := TraverseFrom(g, stack, fuel).value;
      (forall h :: h in stack ==> h in r)
      && forall h, c :: h in r && c in Children(g, h) ==> c in r
    decreases fuel
  {
    if stack != [] {
      var h := stack[|stack| - 1];
      var next := stack[..|stack| - 1] + Children(g, h);
      TraverseFromClosed(g, next, fuel - 1);
      var r := TraverseFrom(g, stack, fuel).value;
      assert r == [h] + TraverseFrom(g, next, fuel - 1).value;
      forall x | x in stack ensures x in r {
        if x != h {
          assert stack == stack[..|stack| - 1] + [h];
          assert x in next;
        }
      }
    }
  }

  /** Depth-first handles of the sub-graph rooted at `root`, `root` first; `None` on a panic. */
  function Traverse(g: Graph, root: Handle): (r: Option<seq<Handle>>)
    ensures r.Some? ==> |r.value| > 0 && r.value[0] == root && IsLive(g.pool, root)
    ensures r.Some? ==> forall h :: h in r.value ==> IsLive(g.pool, h)
  {
    TraverseFrom(g, [root], |g.pool.records|)
  }

  /** The traversal of a sub-graph is closed under taking children. */
  lemma TraverseClosed(g: Graph, root: Handle)
    requires Traverse(g, root).Some?
    ensures forall h, c :: h in Traverse(g, root).value && c in Children(g, h) ==> c in Traverse(g, root).value
  {
    TraverseFromClosed(g, [root], |g.pool.records|);
  }

  /** A traversal that completes yields the same handles with more fuel. */
  lemma {:induction false} TraverseFromMoreFuel(g: Graph, stack: seq<Handle>, fuel: nat, more: nat)
    requires TraverseFrom(g, stack, fuel).Some? && fuel <= more
    ensures TraverseFrom(g, stack, more) == TraverseFrom(g, stack, fuel)
    decreases fuel
  {
    if stack != [] {
      var h := stack[|stack| - 1];
      TraverseFromMoreFuel(g, stack[..|stack| - 1] + Children(g, h), fuel - 1, more - 1);
    }
  }

  /** One step of a traversal that completes: the top handle, then the rest. */
  lemma TraverseFromPop(g: Graph, stack: seq<Handle>, fuel: nat, h: Handle, next: seq<Handle>)
    requires stack != [] && fuel > 0 && h == stack[|stack| - 1] && IsLive(g.pool, h)
    requires next == stack[..|stack| - 1] + Children(g, h) && TraverseFrom(g, next, fuel - 1).Some?
    ensures TraverseFrom(g, stack, fuel) == Some([h] + TraverseFrom(g, next, fuel - 1).value)
  {
  }

  /** A completed traversal of a non-empty stack popped its top handle `h`, which was live, and went on from `next`. */
  lemma TraverseFromSomePop(g: Graph, stack: seq<Handle>, fuel: nat, h: Handle, next: seq<Handle>)
    requires TraverseFrom(g, stack, fuel).Some? && stack != [] && h == stack[|stack| - 1]
    requires next == stack[..|stack| - 1] + Children(g, h)
    ensures fuel > 0 && IsLive(g.pool, h) && TraverseFrom(g, next, fuel - 1).Some?
    ensures TraverseFrom(g, stack, fuel) == Some([h] + TraverseFrom(g, next, fuel - 1).value)
  {
  }

  /**
   * With `top` pushed above `below`, the traversal yields all that `top` leads
   * to and then all that `below` leads to, each within its own fuel.
   */
  lemma {:induction false} TraverseFromStacked(g: Graph, below: seq<Handle>, top: seq<Handle>, f1: nat, f2: nat)
    requires TraverseFrom(g, below, f1).Some? && TraverseFrom(g, top, f2).Some?
    ensures TraverseFrom(g, below + top, f1 + f2) == Some(TraverseFrom(g, top, f2).value + TraverseFrom(g, below, f1).value)
    decreases f2
  {
    if top == [] {
      TraverseFromStackedEmpty(g, below, top, f1, f2);
    } else {
      var h := top[|top| - 1];
      var next := top[..|top| - 1] + Children(g, h);
      TraverseFromSomePop(g, top, f2, h, next);
      TraverseFromStacked(g, below, next, f1, f2 - 1);
      var t := TraverseFrom(g, next, f2 - 1).value;
      var b := TraverseFrom(g, below, f1).value;
      TraverseFromStackedStep(g, below, top, f1 + (f2 - 1), h, next, t, b);
    }
  }

  /** `TraverseFromStacked` with nothing pushed. */
  lemma TraverseFromStackedEmpty(g: Graph, below: seq<Handle>, top: seq<Handle>, f1: nat, f2: nat)
    requires top == [] && TraverseFrom(g, below, f1).Some?
    ensures TraverseFrom(g, top, f2) == Some([])
    ensures TraverseFrom(g, below + top, f1 + f2) == Some(TraverseFrom(g, top, f2).value + TraverseFrom(g, below, f1).value)
  {
    assert below + top == below;
    TraverseFromMoreFuel(g, below, f1, f1 + f2);
    var b := TraverseFrom(g, below, f1).value;
    assert [] + b == b;
  }

  /** The step of `TraverseFromStacked`: popping the top handle `h` of `top` from `below + top`. */
  lemma TraverseFromStackedStep(g: Graph, below: seq<Handle>, top: seq<Handle>, fuel: nat, h: Handle, next: seq<Handle>, t: seq<Handle>, b: seq<Handle>)
    requires top != [] && h == top[|top| - 1] && IsLive(g.pool, h)
    requires next == top[..|top| - 1] + Children(g, h)
    requires TraverseFrom(g, below + next, fuel) == Some(t + b)
    ensures TraverseFrom(g, below + top, fuel + 1) == Some(([h] + t) + b)
  {
    var stack := below + top;
    assert stack[..|stack| - 1] + Children(g, h) == below + next;
    TraverseFromPop(g, stack, fuel + 1, h, below + next);
    assert [h] + (t + b) == ([h] + t) + b;
  }

  /**
   * The traversals of each of `roots`, the last root's first, as a stack holding
   * them yields them; `None` when one of them does not complete.
   */
  function RootsTraversals(g: Graph, roots: seq<Handle>): (r: Option<seq<Handle>>)
    ensures r.Some? <==> forall x :: x in roots ==> Traverse(g, x).Some?
    ensures r.Some? ==> forall h :: h in r.value ==> IsLive(g.pool, h)
  {
    if roots == [] then Some([])
    else
      var last := roots[|roots| - 1];
      assert forall x :: x in roots <==> x in roots[..|roots| - 1] || x == last;
      match (Traverse(g, last), RootsTraversals(g, roots[..|roots| - 1]))
      case (Some(t), Some(rest)) => Some(t + rest)
      case _ => None
  }

  /**
   * The steps a walk over the stack `roots` is given: the pool's size for each
   * of them. A root's sub-graph has no more nodes than the pool has slots.
   */
  function StackFuel(g: Graph, roots: seq<Handle>): nat
  {
    if roots == [] then 0 else StackFuel(g, roots[..|roots| - 1]) + |g.pool.records|
  }

  /**
   * A stack of roots, given the pool's size in steps for each of them, yields
   * every root's own traversal, the last root's first, whenever each of those
   * completes; a root listed twice is traversed twice.
   */
  lemma {:induction false} TraverseRoots(g: Graph, roots: seq<Handle>)
    requires RootsTraversals(g, roots).Some?
    ensures TraverseFrom(g, roots, StackFuel(g, roots)) == RootsTraversals(g, roots)
    decreases |roots|
  {
    if roots != [] {
      var init := roots[..|roots| - 1];
      var last := roots[|roots| - 1];
      assert init + [last] == roots;
      var n := |g.pool.records|;
      var k := StackFuel(g, init);
      assert StackFuel(g, roots) == k + n;
      RootsTraversalsLast(g, roots);
      TraverseRoots(g, init);
      assert TraverseFrom(g, [last], n) == Traverse(g, last);
      TraverseFromStacked(g, init, [last], k, n);
    }
  }

  /** The traversals of non-empty `roots`: the last root's, then the others'. */
  lemma RootsTraversalsLast(g: Graph, roots: seq<Handle>)
    requires roots != [] && RootsTraversals(g, roots).Some?
    ensures var init := roots[..|roots| - 1];
      RootsTraversals(g, init).Some? && Traverse(g, roots[|roots| - 1]).Some?
      && RootsTraversals(g, roots).value == Traverse(g, roots[|roots| - 1]).value + RootsTraversals(g, init).value
  {
    assert forall x :: x in roots[..|roots| - 1] ==> x in roots;
  }

  /** A reserved sub-graph: the root's ticket and node, and every descendant's. */
  datatype SubGraph = SubGraph(root: (Ticket, Node), descendants: seq<(Ticket, Node)>)

  /** Tickets of a sub-graph, descendants first, root last. */
  function SubGraphTickets(sg: SubGraph): (r: seq<Ticket>)
    ensures |r| == |sg.descendants| + 1 && r[|r| - 1] == sg.root.0
    ensures forall i :: 0 <= i < |sg.descendants| ==> r[i] == sg.descendants[i].0
  {
    seq(|sg.descendants|, i requires 0 <= i < |sg.descendants| => sg.descendants[i].0) + [sg.root.0]
  }

  /**
   * `take_reserve_sub_graph` does not panic: the traversal reaches only live nodes,
   * visits every slot once (each is reserved once), and does not reach the root's
   * parent (which detaching the root reads last).
   */
  predicate CanTakeSubGraph(g: Graph, root: Handle)
  {
    CanUnlink(g, root) && Traverse(g, root).Some? && DistinctIndices(Traverse(g, root).value)
    && Get(g.pool, root).parent !in Traverse(g, root).value
  }

  /** `take_reserve_sub_graph`: reserves the descendants, then detaches and reserves the root. */
  function TakeReserveSubGraph(g: Graph, root: Handle): (r: (Graph, SubGraph))
    requires CanTakeSubGraph(g, root)
    ensures r.0.root == g.root
    ensures forall x :: IsLive(r.0.pool, x) <==> IsLive(g.pool, x) && x !in Traverse(g, root).value
    ensures r.1.root.0 == Ticket(root.index) && |r.1.descendants| == |Traverse(g, root).value| - 1
    ensures forall i :: 0 <= i < |r.1.descendants| ==>
      r.1.descendants[i] == (Ticket(Traverse(g, root).value[i + 1].index), Get(g.pool, Traverse(g, root).value[i + 1]))
    ensures Get(g.pool, root).parent != root ==> r.1.root.1 == Get(g.pool, root).(parent := NONE)
    ensures forall i :: 0 <= i < |Traverse(g, root).value| ==>
      var x := Traverse(g, root).value[i];
      IsReserved(r.0.pool, Ticket(x.index)) && TicketHandle(r.0.pool, Ticket(x.index)) == x
  {
    var all := Traverse(g, root).value;
    var ds := all[1..];
    DistinctTail(all);
    var (p1, taken) := TakeAll(g.pool, ds);
    var par := Get(g.pool, root).parent;
    var (g2, t, n) := TakeReserveNode(Graph(p1, g.root), root);
    assert forall x :: x in all <==> x == root || x in ds by {
      assert all == [root] + ds;
    }
    forall i | 1 <= i < |all|
      ensures IsReserved(g2.pool, Ticket(all[i].index)) && TicketHandle(g2.pool, Ticket(all[i].index)) == all[i]
    {
      assert all[i] == ds[i - 1];
      assert all[i].index in Indices(ds);
    }
    (g2, SubGraph((t, n), taken))
  }

  /**
   * A sub-graph can be put back when its tickets are distinct and still reserved
   * and the graph root (the node it is re-attached to) is live.
   */
  predicate CanPutSubGraphBack(g: Graph, sg: SubGraph)
  {
    var ts := SubGraphTickets(sg);
    IsLive(g.pool, g.root)
    && (forall i :: 0 <= i < |ts| ==> IsReserved(g.pool, ts[i]))
    && (forall a, b :: 0 <= a < b < |ts| ==> ts[a].index != ts[b].index)
    && (sg.root.1.parent == NONE || IsLive(g.pool, sg.root.1.parent))
  }

  /** `put_sub_graph_back`: restores every descendant, then the root under the graph root. */
  function PutSubGraphBack(g: Graph, sg: SubGraph): (r: (Graph, Handle))
    requires CanPutSubGraphBack(g, sg)
    ensures IsReserved(g.pool, sg.root.0) && forall i :: 0 <= i < |sg.descendants| ==> IsReserved(g.pool, sg.descendants[i].0)
    ensures r.0.root == g.root && r.1 == TicketHandle(g.pool, sg.root.0)
    ensures IsLive(r.0.pool, r.1) && Get(r.0.pool, r.1).parent == g.root
    ensures forall i :: 0 <= i < |sg.descendants| ==>
      IsLive(r.0.pool, TicketHandle(g.pool, sg.descendants[i].0))
    ensures forall x :: IsLive(g.pool, x) ==> IsLive(r.0.pool, x)
  {
    SubGraphTicketsFacts(g, sg);
    var (p1, hs) := PutAll(g.pool, sg.descendants);
    PutAllUntouched(g.pool, sg.descendants, sg.root.0.index);
    var r := PutBackNode(Graph(p1, g.root), sg.root.0, sg.root.1);
    PutAllStaysLive(g.pool, sg.descendants, r.0.pool);
    r
  }

  lemma SubGraphTicketsFacts(g: Graph, sg: SubGraph)
    requires CanPutSubGraphBack(g, sg)
    ensures forall a, b :: 0 <= a < b < |sg.descendants| ==> sg.descendants[a].0 != sg.descendants[b].0
    ensures forall i :: 0 <= i < |sg.descendants| ==> IsReserved(g.pool, sg.descendants[i].0)
    ensures forall i :: 0 <= i < |sg.descendants| ==> sg.descendants[i].0.index != sg.root.0.index
    ensures IsReserved(g.pool, sg.root.0)
  {
    var ts := SubGraphTickets(sg);
    assert ts[|ts| - 1] == sg.root.0;
    forall a, b | 0 <= a < b < |sg.descendants| ensures sg.descendants[a].0 != sg.descendants[b].0 {
      assert ts[a] == sg.descendants[a].0 && ts[b] == sg.descendants[b].0;
    }
    forall i | 0 <= i < |sg.descendants| ensures sg.descendants[i].0.index != sg.root.0.index {
      assert ts[i] == sg.descendants[i].0;
    }
  }

  /** Slots not named by any ticket are left alone by `PutAll`. */
  lemma {:induction false} PutAllUntouched<T>(p: Pool<T>, ts: seq<(Ticket, T)>, i: nat)
    requires forall k :: 0 <= k < |ts| ==> IsReserved(p, ts[k].0)
    requires forall a, b :: 0 <= a < b < |ts| ==> ts[a].0 != ts[b].0
    requires i < |p.records| && forall k :: 0 <= k < |ts| ==> ts[k].0.index != i
    ensures PutAll(p, ts).0.records[i] == p.records[i]
    decreases |ts|
  {
    if ts != [] {
      var (p1, h) := PutBack(p, ts[0].0, ts[0].1);
      assert forall k :: 1 <= k < |ts| ==> ts[k] == ts[1..][k - 1];
      PutAllUntouched(p1, ts[1..], i);
    }
  }

  /** `forget_sub_graph`: frees every slot of a reserved sub-graph. */
  function ForgetSubGraph(g: Graph, sg: SubGraph): (r: Graph)
    requires var ts := SubGraphTickets(sg);
      (forall i :: 0 <= i < |ts| ==> IsReserved(g.pool, ts[i]))
      && (forall a, b :: 0 <= a < b < |ts| ==> ts[a] != ts[b])
    ensures r.root == g.root && SameLive(g.pool, r.pool)
    ensures forall x :: IsLive(g.pool, x) ==> Get(r.pool, x) == Get(g.pool, x)
    ensures forall u :: IsReserved(r.pool, u) <==> IsReserved(g.pool, u) && u !in SubGraphTickets(sg)
  {
    Graph(ForgetAll(g.pool, SubGraphTickets(sg)), g.root)
  }

  /**
   * A sub-graph reserved from a graph whose root it does not contain can be put
   * back: every node of the traversal becomes live again at its old handle,
   * nothing that was live is lost, and the sub-graph's root hangs under the
   * graph root.
   */
  lemma SubGraphRoundTrip(g: Graph, root: Handle)
    requires CanTakeSubGraph(g, root) && IsLive(g.pool, g.root) && g.root !in Traverse(g, root).value
    ensures var (g1, sg) := TakeReserveSubGraph(g, root);
      CanPutSubGraphBack(g1, sg)
      && var (g2, h) := PutSubGraphBack(g1, sg);
      h == root
      && (forall x :: x in Traverse(g, root).value ==> IsLive(g2.pool, x))
      && (forall x :: IsLive(g.pool, x) ==> IsLive(g2.pool, x))
      && Get(g2.pool, root).parent == g.root
  {
    var all := Traverse(g, root).value;
    var (g1, sg) := TakeReserveSubGraph(g, root);
    SubGraphReservable(g, root);
    var (g2, h2) := PutSubGraphBack(g1, sg);
    assert h2 == root;
    forall i | 0 <= i < |all| ensures IsLive(g2.pool, all[i]) {
      if i > 0 {
        var t := sg.descendants[i - 1].0;
        assert t == Ticket(all[i].index);
        assert TicketHandle(g1.pool, t) == all[i];
      }
    }
    forall x | IsLive(g.pool, x) ensures IsLive(g2.pool, x) {
      if x !in all {
        assert IsLive(g1.pool, x);
      }
    }
  }

  /** The tickets of a reserved sub-graph are distinct and reserved, so it can be put back. */
  lemma SubGraphReservable(g: Graph, root: Handle)
    requires CanTakeSubGraph(g, root) && IsLive(g.pool, g.root) && g.root !in Traverse(g, root).value
    ensures var (g1, sg) := TakeReserveSubGraph(g, root); CanPutSubGraphBack(g1, sg)
  {
    var all := Traverse(g, root).value;
    var (g1, sg) := TakeReserveSubGraph(g, root);
    var ts := SubGraphTickets(sg);
    var d := |sg.descendants|;
    assert DistinctIndices(all);
    forall i | 0 <= i < |ts|
      ensures var k := if i < d then i + 1 else 0; ts[i] == Ticket(all[k].index)
      ensures IsReserved(g1.pool, ts[i])
    {
      if i < d {
        assert ts[i] == sg.descendants[i].0;
      }
    }
    forall a, b | 0 <= a < b < |ts| ensures ts[a].index != ts[b].index {
      var ka := if a < d then a + 1 else 0;
      var kb := if b < d then b + 1 else 0;
      assert ka != kb;
      if ka < kb {
        assert all[ka].index != all[kb].index;
      } else {
        assert all[kb].index != all[ka].index;
      }
    }
    assert Get(g.pool, root).parent != root;
  }
}
