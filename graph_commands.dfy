/**
 * The commands that change the shape of the scene graph: adding a node,
 * deleting a node, deleting a whole sub-graph and re-parenting a node. Each is
 * a pair of functions from a scene and the command's fields to the new scene
 * and fields, `None` where the source panics.
 */
module GraphCommands {
  import opened Pools
  import opened Entities
  import opened SceneGraph
  import opened Scenes

  // ---------------------------------------------------------------- add node

  /** `AddNodeCommand`: a ticket while reverted, the node's handle, the node while outside the graph. */
  datatype AddNodeState = AddNodeState(ticket: Option<Ticket>, handle: Handle, node: Option<Node>)

  /** `AddNodeCommand::new`. */
  function NewAddNode(n: Node): AddNodeState
  {
    AddNodeState(None, NONE, Some(n))
  }

  /**
   * `execute`: the first time, adds the node under the root; after a revert, puts
   * it back with the ticket and asserts that it is at the recorded handle.
   */
  function AddNodeExecute(s: Scene, c: AddNodeState): (r: Option<(Scene, AddNodeState)>)
    ensures c.node.None? ==> r.None?
    ensures r.Some? ==> var (s1, c1) := r.value;
      s1 == s.(graph := s1.graph) && s1.graph.root == s.graph.root
      && c1 == AddNodeState(None, c1.handle, None)
      && IsLive(s1.graph.pool, c1.handle) && !IsLive(s.graph.pool, c1.handle)
      && Get(s1.graph.pool, c1.handle).parent == s.graph.root
      && RawCopy(Get(s1.graph.pool, c1.handle)) == RawCopy(c.node.value)
      && (forall x :: IsLive(s1.graph.pool, x) <==> IsLive(s.graph.pool, x) || x == c1.handle)
      && FrameOutside(s.graph, s1.graph, c1.handle)
    ensures r.Some? && c.ticket.Some? ==> r.value.1.handle == c.handle
  {
    match c.node
    case None => None
    case Some(n) =>
      if !IsLive(s.graph.pool, s.graph.root) || !(n.parent == NONE || IsLive(s.graph.pool, n.parent)) then None
      else
        match c.ticket
        case None =>
          var (g1, h) := AddNode(s.graph, n);
          Some((s.(graph := g1), AddNodeState(None, h, None)))
        case Some(t) =>
          if !IsReserved(s.graph.pool, t) then None
          else
            var (g1, h) := PutBackNode(s.graph, t, n);
            if h != c.handle then None else Some((s.(graph := g1), AddNodeState(None, h, None)))
  }

  /** `revert`: detaches and reserves the node, keeping the ticket and the node. */
  function AddNodeRevert(s: Scene, c: AddNodeState): (r: Option<(Scene, AddNodeState)>)
    ensures r.Some? <==> CanUnlink(s.graph, c.handle)
    ensures r.Some? ==> var (s1, c1) := r.value;
      s1 == s.(graph := s1.graph) && s1.graph.root == s.graph.root
      && c1.ticket == Some(Ticket(c.handle.index)) && c1.handle == c.handle && c1.node.Some?
      && RawCopy(c1.node.value) == RawCopy(Get(s.graph.pool, c.handle)) && c1.node.value.parent == NONE
      && IsReserved(s1.graph.pool, c1.ticket.value) && TicketHandle(s1.graph.pool, c1.ticket.value) == c.handle
      && (forall x :: IsLive(s1.graph.pool, x) <==> IsLive(s.graph.pool, x) && x != c.handle)
      && FrameOutside(s.graph, s1.graph, c.handle)
  {
    if !CanUnlink(s.graph, c.handle) then None
    else
      var (g1, t, n) := TakeReserveNode(s.graph, c.handle);
      Some((s.(graph := g1), AddNodeState(Some(t), c.handle, Some(n))))
  }

  /**
   * The `finalize` of a command that may hold a node's ticket: forgets it if there
   * is one (a ticket that no longer reserves its slot panics).
   */
  function ForgetHeldNode(g: Graph, t: Option<Ticket>): (r: Option<Graph>)
    ensures t.None? ==> r == Some(g)
    ensures t.Some? ==> (r.Some? <==> IsReserved(g.pool, t.value))
    ensures r.Some? ==>
      r.value.root == g.root && SameLive(g.pool, r.value.pool)
      && (forall x :: IsLive(g.pool, x) ==> Get(r.value.pool, x) == Get(g.pool, x))
  {
    match t
    case None => Some(g)
    case Some(x) => if IsReserved(g.pool, x) then Some(ForgetNode(g, x)) else None
  }

  /**
   * The `finalize` of a command that may hold a sub-graph: frees all its slots if
   * there is one (a ticket that no longer reserves its slot panics).
   */
  function ForgetHeldSubGraph(g: Graph, held: Option<SubGraph>): (r: Option<Graph>)
    ensures held.None? ==> r == Some(g)
    ensures r.Some? ==>
      r.value.root == g.root && SameLive(g.pool, r.value.pool)
      && (forall x :: IsLive(g.pool, x) ==> Get(r.value.pool, x) == Get(g.pool, x))
  {
    match held
    case None => Some(g)
    case Some(sg) =>
      var ts := SubGraphTickets(sg);
      if (forall i :: 0 <= i < |ts| ==> IsReserved(g.pool, ts[i]))
        && (forall a, b :: 0 <= a < b < |ts| ==> ts[a] != ts[b])
      then Some(ForgetSubGraph(g, sg))
      else None
  }

  /** `finalize`: forgets the ticket of a reverted command. */
  function AddNodeFinalize(s: Scene, c: AddNodeState): (r: Option<(Scene, AddNodeState)>)
    ensures c.ticket.None? ==> r == Some((s, c))
    ensures c.ticket.Some? ==> (r.Some? <==> IsReserved(s.graph.pool, c.ticket.value))
    ensures r.Some? ==> var (s1, c1) := r.value;
      c1 == c.(ticket := None) && s1 == s.(graph := s1.graph) && SameLive(s.graph.pool, s1.graph.pool)
      && (forall x :: IsLive(s.graph.pool, x) ==> Get(s1.graph.pool, x) == Get(s.graph.pool, x))
  {
    match ForgetHeldNode(s.graph, c.ticket)
    case None => None
    case Some(g1) => Some((s.(graph := g1), c.(ticket := None)))
  }

  /**
   * Undo and redo of an add: reverting a successful first execution cannot panic,
   * and executing again cannot panic either; it puts the node back at exactly the
   * handle of the first execution, under the root, with the same data and the same
   * live nodes, every other node keeping its parent and data.
   */
  lemma AddNodeRedo(s: Scene, n: Node)
    requires AddNodeExecute(s, NewAddNode(n)).Some?
    ensures var (s1, c1) := AddNodeExecute(s, NewAddNode(n)).value;
      AddNodeRevert(s1, c1).Some?
      && var (s2, c2) := AddNodeRevert(s1, c1).value;
      AddNodeExecute(s2, c2).Some?
      && var (s3, c3) := AddNodeExecute(s2, c2).value;
      c3 == c1 && Get(s3.graph.pool, c1.handle) == Get(s1.graph.pool, c1.handle).(children := Get(s3.graph.pool, c1.handle).children)
      && (forall x :: IsLive(s3.graph.pool, x) <==> IsLive(s1.graph.pool, x))
      && FrameOutside(s1.graph, s3.graph, c1.handle)
  {
    var (s1, c1) := AddNodeExecute(s, NewAddNode(n)).value;
    var h := c1.handle;
    assert h != s.graph.root;
    var (s2, c2) := AddNodeRevert(s1, c1).value;
    assert IsLive(s2.graph.pool, s2.graph.root);
    var (s3, c3) := AddNodeExecute(s2, c2).value;
    assert Get(s3.graph.pool, h).parent == Get(s1.graph.pool, h).parent;
    assert RawCopy(Get(s3.graph.pool, h)) == RawCopy(Get(s1.graph.pool, h));
  }

  // ---------------------------------------------------------------- delete node

  /** `DeleteNodeCommand`: the handle, a ticket and the node while deleted, and the parent to re-attach to. */
  datatype DeleteNodeState = DeleteNodeState(handle: Handle, ticket: Option<Ticket>, node: Option<Node>, parent: Handle)

  /** `DeleteNodeCommand::new`. */
  function NewDeleteNode(h: Handle): DeleteNodeState
  {
    DeleteNodeState(h, None, None, NONE)
  }

  /** `execute`: remembers the parent, then detaches and reserves the node. */
  function DeleteNodeExecute(s: Scene, c: DeleteNodeState): (r: Option<(Scene, DeleteNodeState)>)
    ensures r.Some? <==> CanUnlink(s.graph, c.handle)
    ensures r.Some? ==> var (s1, c1) := r.value;
      s1 == s.(graph := s1.graph) && s1.graph.root == s.graph.root
      && c1.handle == c.handle && c1.parent == Get(s.graph.pool, c.handle).parent
      && c1.ticket == Some(Ticket(c.handle.index)) && c1.node.Some?
      && (forall x :: IsLive(s1.graph.pool, x) <==> IsLive(s.graph.pool, x) && x != c.handle)
  {
    if !CanUnlink(s.graph, c.handle) then None
    else
      var parent := Get(s.graph.pool, c.handle).parent;
      var (g1, t, n) := TakeReserveNode(s.graph, c.handle);
      Some((s.(graph := g1), DeleteNodeState(c.handle, Some(t), Some(n), parent)))
  }

  /**
   * `revert`: puts the node back (both the ticket and the node are unwrapped) and
   * links it to the remembered parent, which must be live.
   */
  function DeleteNodeRevert(s: Scene, c: DeleteNodeState): (r: Option<(Scene, DeleteNodeState)>)
    ensures r.Some? ==> var (s1, c1) := r.value;
      s1 == s.(graph := s1.graph) && c1 == DeleteNodeState(c1.handle, None, None, c.parent)
      && IsLive(s1.graph.pool, c1.handle) && Get(s1.graph.pool, c1.handle).parent == c.parent
  {
    if c.ticket.None? || c.node.None? then None
    else
      var (t, n) := (c.ticket.value, c.node.value);
      if !IsReserved(s.graph.pool, t) || !IsLive(s.graph.pool, s.graph.root)
        || !(n.parent == NONE || IsLive(s.graph.pool, n.parent))
      then None
      else
        var (g1, h) := PutBackNode(s.graph, t, n);
        if !IsLive(g1.pool, c.parent) then None
        else Some((s.(graph := LinkNodes(g1, h, c.parent)), DeleteNodeState(h, None, None, c.parent)))
  }

  /** `finalize`: forgets the ticket of a deleted node. */
  function DeleteNodeFinalize(s: Scene, c: DeleteNodeState): (r: Option<(Scene, DeleteNodeState)>)
    ensures c.ticket.None? ==> r == Some((s, c))
    ensures c.ticket.Some? ==> (r.Some? <==> IsReserved(s.graph.pool, c.ticket.value))
    ensures r.Some? ==> var (s1, c1) := r.value;
      c1 == c.(ticket := None) && s1 == s.(graph := s1.graph) && SameLive(s.graph.pool, s1.graph.pool)
      && (forall x :: IsLive(s.graph.pool, x) ==> Get(s1.graph.pool, x) == Get(s.graph.pool, x))
  {
    match ForgetHeldNode(s.graph, c.ticket)
    case None => None
    case Some(g1) => Some((s.(graph := g1), c.(ticket := None)))
  }

  /**
   * Undo of a delete: for a node other than the root whose parent is a live node
   * other than itself, revert after execute cannot panic and restores the node at
   * its handle with exactly its old value (parent, children and data), the same
   * live nodes, and every other node's parent and data. The node becomes the last
   * child of its parent.
   */
  lemma DeleteNodeUndo(s: Scene, h: Handle)
    requires Valid(s.graph.pool) && IsLive(s.graph.pool, s.graph.root) && h != s.graph.root
    requires IsLive(s.graph.pool, h)
    requires var p := Get(s.graph.pool, h).parent; p != h && IsLive(s.graph.pool, p)
    ensures var (s1, c1) := DeleteNodeExecute(s, NewDeleteNode(h)).value;
      DeleteNodeRevert(s1, c1).Some?
      && var (s2, c2) := DeleteNodeRevert(s1, c1).value;
      c2 == DeleteNodeState(h, None, None, Get(s.graph.pool, h).parent)
      && s2 == s.(graph := s2.graph)
      && (forall x :: IsLive(s2.graph.pool, x) <==> IsLive(s.graph.pool, x))
      && Get(s2.graph.pool, h) == Get(s.graph.pool, h)
      && FrameOutside(s.graph, s2.graph, h)
      && var cs := Get(s2.graph.pool, Get(s.graph.pool, h).parent).children; cs[|cs| - 1] == h
  {
    var (s1, c1) := DeleteNodeExecute(s, NewDeleteNode(h)).value;
    var (g1, t, n) := TakeReserveNode(s.graph, h);
    assert s1.graph == g1 && c1.node == Some(n);
    ReserveNodeRoundTrip(s.graph, h);
  }

  /** Reserving a node, putting it back and linking it to its old parent restores it, last among the parent's children. */
  lemma ReserveNodeRoundTrip(g: Graph, h: Handle)
    requires Valid(g.pool) && IsLive(g.pool, g.root) && h != g.root && IsLive(g.pool, h)
    requires var p := Get(g.pool, h).parent; p != h && IsLive(g.pool, p)
    ensures var p := Get(g.pool, h).parent;
      var (g1, t, n) := TakeReserveNode(g, h);
      IsReserved(g1.pool, t) && IsLive(g1.pool, g1.root) && n.parent == NONE
      && var (g2, h2) := PutBackNode(g1, t, n);
      h2 == h && IsLive(g2.pool, p) && CanUnlink(g2, h)
      && var g3 := LinkNodes(g2, h, p);
      (forall x :: IsLive(g3.pool, x) <==> IsLive(g.pool, x))
      && Get(g3.pool, h) == Get(g.pool, h)
      && FrameOutside(g, g3, h)
      && var cs := Get(g3.pool, p).children; cs[|cs| - 1] == h
  {
    var p := Get(g.pool, h).parent;
    var (g1, t, n) := TakeReserveNode(g, h);
    NoneNeverLive(g.pool);
    assert IsLive(g1.pool, g1.root) && IsLive(g1.pool, p);
    var (g2, h2) := PutBackNode(g1, t, n);
    assert h2 == h;
    assert Get(g2.pool, h) == Get(g.pool, h).(parent := g.root);
    var g3 := LinkNodes(g2, h, p);
    LinkNodesFrame(g2, h, p);
    assert Get(g3.pool, h) == Get(g.pool, h);
  }

  // ---------------------------------------------------------------- delete sub-graph

  /** `DeleteSubGraphCommand`: the sub-graph's root, the reserved sub-graph while deleted, the root's parent. */
  datatype DeleteSubGraphState = DeleteSubGraphState(root: Handle, subGraph: Option<SubGraph>, parent: Handle)

  /** `DeleteSubGraphCommand::new`. */
  function NewDeleteSubGraph(root: Handle): DeleteSubGraphState
  {
    DeleteSubGraphState(root, None, NONE)
  }

  /** `execute`: remembers the root's parent, then reserves the whole sub-graph. */
  function DeleteSubGraphExecute(s: Scene, c: DeleteSubGraphState): (r: Option<(Scene, DeleteSubGraphState)>)
    ensures r.Some? <==> CanTakeSubGraph(s.graph, c.root)
    ensures r.Some? ==> var (s1, c1) := r.value;
      s1 == s.(graph := s1.graph) && s1.graph.root == s.graph.root
      && c1.root == c.root && c1.parent == Get(s.graph.pool, c.root).parent && c1.subGraph.Some?
      && (forall x :: IsLive(s1.graph.pool, x) <==> IsLive(s.graph.pool, x) && x !in Traverse(s.graph, c.root).value)
  {
    if !CanTakeSubGraph(s.graph, c.root) then None
    else
      var parent := Get(s.graph.pool, c.root).parent;
      var (g1, sg) := TakeReserveSubGraph(s.graph, c.root);
      Some((s.(graph := g1), DeleteSubGraphState(c.root, Some(sg), parent)))
  }

  /** `revert`: puts the sub-graph back (unwrapped) and links its root to the remembered parent. */
  function DeleteSubGraphRevert(s: Scene, c: DeleteSubGraphState): (r: Option<(Scene, DeleteSubGraphState)>)
    ensures r.Some? ==> var (s1, c1) := r.value;
      s1 == s.(graph := s1.graph) && c1 == c.(subGraph := None)
      && IsLive(s1.graph.pool, c.root) && Get(s1.graph.pool, c.root).parent == c.parent
      && (forall x :: IsLive(s.graph.pool, x) ==> IsLive(s1.graph.pool, x))
  {
    match c.subGraph
    case None => None
    case Some(sg) =>
      if !CanPutSubGraphBack(s.graph, sg) then None
      else
        var (g1, _) := PutSubGraphBack(s.graph, sg);
        if !CanUnlink(g1, c.root) || !IsLive(g1.pool, c.parent) then None
        else Some((s.(graph := LinkNodes(g1, c.root, c.parent)), c.(subGraph := None)))
  }

  /** `finalize`: frees every slot of a sub-graph the command still holds. */
  function DeleteSubGraphFinalize(s: Scene, c: DeleteSubGraphState): (r: Option<(Scene, DeleteSubGraphState)>)
    ensures c.subGraph.None? ==> r == Some((s, c))
    ensures r.Some? ==> var (s1, c1) := r.value;
      c1 == c.(subGraph := None) && s1 == s.(graph := s1.graph) && SameLive(s.graph.pool, s1.graph.pool)
      && (forall x :: IsLive(s.graph.pool, x) ==> Get(s1.graph.pool, x) == Get(s.graph.pool, x))
  {
    match ForgetHeldSubGraph(s.graph, c.subGraph)
    case None => None
    case Some(g1) => Some((s.(graph := g1), c.(subGraph := None)))
  }

  /**
   * Undo of a sub-graph deletion: when the root's parent is live and is not the
   * graph root's own sub-graph root, revert after execute cannot panic, makes every
   * node of the sub-graph live again at its old handle, keeps every node that was
   * live, and re-attaches the root to its old parent.
   */
  lemma DeleteSubGraphUndo(s: Scene, root: Handle)
    requires CanTakeSubGraph(s.graph, root) && IsLive(s.graph.pool, s.graph.root)
    requires s.graph.root !in Traverse(s.graph, root).value
    requires IsLive(s.graph.pool, Get(s.graph.pool, root).parent)
    ensures var (s1, c1) := DeleteSubGraphExecute(s, NewDeleteSubGraph(root)).value;
      DeleteSubGraphRevert(s1, c1).Some?
      && var (s2, c2) := DeleteSubGraphRevert(s1, c1).value;
      c2 == DeleteSubGraphState(root, None, Get(s.graph.pool, root).parent)
      && (forall x :: x in Traverse(s.graph, root).value ==> IsLive(s2.graph.pool, x))
      && (forall x :: IsLive(s.graph.pool, x) ==> IsLive(s2.graph.pool, x))
      && Get(s2.graph.pool, root).parent == Get(s.graph.pool, root).parent
  {
    var p := Get(s.graph.pool, root).parent;
    var (g1, sg) := TakeReserveSubGraph(s.graph, root);
    SubGraphRoundTrip(s.graph, root);
    var (g2, h2) := PutSubGraphBack(g1, sg);
    assert IsLive(g2.pool, p);
  }

  // ---------------------------------------------------------------- load model

  /** `LoadModelCommand` without its path and animations: the model's root, and its reserved sub-graph while reverted. */
  datatype LoadModelState = LoadModelState(model: Handle, subGraph: Option<SubGraph>)

  /**
   * `execute`. The first execution (no model yet) loads and instantiates the model
   * file, which is outside this model: here it leaves the scene as a failed load
   * does. Every later execution puts the reserved sub-graph back (unwrapped) under
   * the graph root and records the handle of its root.
   */
  function LoadModelExecute(s: Scene, c: LoadModelState): (r: Option<(Scene, LoadModelState)>)
    ensures c.model == NONE ==> r == Some((s, c))
    ensures c.model != NONE ==> (r.Some? <==> c.subGraph.Some? && CanPutSubGraphBack(s.graph, c.subGraph.value))
    ensures c.model != NONE && r.Some? ==> var (s1, c1) := r.value;
      s1 == s.(graph := s1.graph) && s1.graph.root == s.graph.root
      && c1 == LoadModelState(PutSubGraphBack(s.graph, c.subGraph.value).1, None)
      && c1.model.index == c.subGraph.value.root.0.index
      && IsLive(s1.graph.pool, c1.model) && Get(s1.graph.pool, c1.model).parent == s.graph.root
      && (forall x :: IsLive(s.graph.pool, x) ==> IsLive(s1.graph.pool, x))
  {
    if c.model == NONE then Some((s, c))
    else
      match c.subGraph
      case None => None
      case Some(sg) =>
        if !CanPutSubGraphBack(s.graph, sg) then None
        else
          var (g1, h) := PutSubGraphBack(s.graph, sg);
          Some((s.(graph := g1), LoadModelState(h, None)))
  }

  /** `revert`: reserves the model's whole sub-graph and keeps it. */
  function LoadModelRevert(s: Scene, c: LoadModelState): (r: Option<(Scene, LoadModelState)>)
    ensures r.Some? <==> CanTakeSubGraph(s.graph, c.model)
    ensures r.Some? ==> var (s1, c1) := r.value;
      s1 == s.(graph := s1.graph) && s1.graph.root == s.graph.root
      && c1.model == c.model && c1.subGraph.Some? && c1.subGraph.value.root.0 == Ticket(c.model.index)
      && (forall x :: IsLive(s1.graph.pool, x) <==> IsLive(s.graph.pool, x) && x !in Traverse(s.graph, c.model).value)
  {
    if !CanTakeSubGraph(s.graph, c.model) then None
    else
      var (g1, sg) := TakeReserveSubGraph(s.graph, c.model);
      Some((s.(graph := g1), c.(subGraph := Some(sg))))
  }

  /** `finalize`: frees every slot of a sub-graph the command still holds. */
  function LoadModelFinalize(s: Scene, c: LoadModelState): (r: Option<(Scene, LoadModelState)>)
    ensures c.subGraph.None? ==> r == Some((s, c))
    ensures r.Some? ==> var (s1, c1) := r.value;
      c1 == c.(subGraph := None) && s1 == s.(graph := s1.graph) && SameLive(s.graph.pool, s1.graph.pool)
      && (forall x :: IsLive(s.graph.pool, x) ==> Get(s1.graph.pool, x) == Get(s.graph.pool, x))
  {
    match ForgetHeldSubGraph(s.graph, c.subGraph)
    case None => None
    case Some(g1) => Some((s.(graph := g1), c.(subGraph := None)))
  }

  /**
   * Undo and redo of a loaded model: reverting reserves the model's sub-graph and
   * executing again puts it back with the model's root at its old handle, every
   * node of the sub-graph live again and nothing that was live lost; the command
   * is as it was before the undo.
   */
  lemma LoadModelRedo(s: Scene, c: LoadModelState)
    requires c.model != NONE && c.subGraph.None?
    requires CanTakeSubGraph(s.graph, c.model) && IsLive(s.graph.pool, s.graph.root)
    requires s.graph.root !in Traverse(s.graph, c.model).value
    ensures LoadModelRevert(s, c).Some?
    ensures var (s1, c1) := LoadModelRevert(s, c).value;
      LoadModelExecute(s1, c1).Some?
      && var (s2, c2) := LoadModelExecute(s1, c1).value;
      c2 == c
      && (forall x :: x in Traverse(s.graph, c.model).value ==> IsLive(s2.graph.pool, x))
      && (forall x :: IsLive(s.graph.pool, x) ==> IsLive(s2.graph.pool, x))
      && Get(s2.graph.pool, c.model).parent == s.graph.root
  {
    SubGraphRoundTrip(s.graph, c.model);
  }

  // ---------------------------------------------------------------- link nodes

  /** `LinkNodesCommand`: the child and the parent it is to be linked to next. */
  datatype LinkNodesState = LinkNodesState(child: Handle, parent: Handle)

  /**
   * `link`, which is both `execute` and `revert`: makes `child` the last child of
   * `parent` and remembers the child's previous parent for the next call.
   */
  function LinkNodesSwap(s: Scene, c: LinkNodesState): (r: Option<(Scene, LinkNodesState)>)
    ensures r.Some? <==> CanUnlink(s.graph, c.child) && IsLive(s.graph.pool, c.parent)
    ensures r.Some? ==> var (s1, c1) := r.value;
      s1 == s.(graph := s1.graph) && s1.graph.root == s.graph.root
      && c1 == LinkNodesState(c.child, Get(s.graph.pool, c.child).parent)
      && IsLive(s1.graph.pool, c.child) && Get(s1.graph.pool, c.child).parent == c.parent
      && SameLive(s.graph.pool, s1.graph.pool) && FrameOutside(s.graph, s1.graph, c.child)
      && RawCopy(Get(s1.graph.pool, c.child)) == RawCopy(Get(s.graph.pool, c.child))
    ensures r.Some? ==> var (s1, c1) := r.value;
      s1.graph == LinkNodes(s.graph, c.child, c.parent)
      && (var cs := Get(s1.graph.pool, c.parent).children; |cs| > 0 && cs[|cs| - 1] == c.child)
      && (var prev := Get(s.graph.pool, c.child).parent;
          prev != NONE && prev != c.child && prev != c.parent ==>
            Get(s1.graph.pool, prev).children == RemoveFirst(Get(s.graph.pool, prev).children, c.child))
      && forall x :: IsLive(s.graph.pool, x) && x != c.child && x != c.parent && x != c1.parent ==>
        Get(s1.graph.pool, x) == Get(s.graph.pool, x)
  {
    if !CanUnlink(s.graph, c.child) || !IsLive(s.graph.pool, c.parent) then None
    else
      var previous := Get(s.graph.pool, c.child).parent;
      LinkNodesFrame(s.graph, c.child, c.parent);
      LinkNodesLeavesOldParent(s.graph, c.child, c.parent);
      Some((s.(graph := LinkNodes(s.graph, c.child, c.parent)), LinkNodesState(c.child, previous)))
  }

  /**
   * Undo of a re-parenting: it succeeds exactly when the child's old parent is a
   * live node (a detached child cannot be linked back), and then restores the
   * command and the child's parent; the same nodes are live and every node keeps
   * its data and, apart from the child, its parent.
   */
  lemma LinkNodesUndo(s: Scene, c: LinkNodesState)
    requires LinkNodesSwap(s, c).Some?
    ensures var (s1, c1) := LinkNodesSwap(s, c).value;
      (LinkNodesSwap(s1, c1).Some? <==> IsLive(s.graph.pool, Get(s.graph.pool, c.child).parent))
      && (LinkNodesSwap(s1, c1).Some? ==>
        var (s2, c2) := LinkNodesSwap(s1, c1).value;
        c2 == c && s2 == s.(graph := s2.graph)
        && Get(s2.graph.pool, c.child).parent == Get(s.graph.pool, c.child).parent
        && SameLive(s.graph.pool, s2.graph.pool)
        && (forall x :: IsLive(s.graph.pool, x) ==>
          RawCopy(Get(s2.graph.pool, x)) == RawCopy(Get(s.graph.pool, x))
          && Get(s2.graph.pool, x).parent == Get(s.graph.pool, x).parent))
  {
    var (s1, c1) := LinkNodesSwap(s, c).value;
    LinkNodesFrame(s.graph, c.child, c.parent);
    if LinkNodesSwap(s1, c1).Some? {
      LinkNodesFrame(s1.graph, c1.child, c1.parent);
    }
  }
}
