/**
 * `make_delete_selection_command`: the group that deletes the selected nodes.
 * It clears the selection first, then walks the sub-graphs of the selection's
 * root nodes with a stack, deleting the physics entities of every bound node
 * (colliders, then the body, then the body's joint, then resetting the joints
 * connected to it), and ends with one `DeleteSubGraph` per root node.
 *
 * A panic (a dead selected node, a bound body that is dead) is `None`. The walk
 * takes one step per node; `fuel` bounds the steps by the pool size for each
 * root node on the stack, which the sub-graphs of a tree never exceed, and
 * running out of it also gives `None`.
 */
module DeleteSelection {
  import opened Pools
  import opened Entities
  import opened SceneGraph
  import opened PhysicsWorld
  import opened Selections

  /**
   * The commands the group is built from, each with the argument its `new` takes:
   * `ChangeSelectionCommand::new(None, Graph(selection))`, `DeleteColliderCommand`,
   * `DeleteBodyCommand`, `DeleteJointCommand`,
   * `SetJointConnectedBodyCommand::new(joint, NONE)` and `DeleteSubGraphCommand`.
   */
  datatype DeleteStep =
    | ClearSelection(selection: GraphSelection)
    | DeleteCollider(collider: Handle)
    | DeleteBody(body: Handle)
    | DeleteJoint(joint: Handle)
    | ResetConnectedBody(joint: Handle)
    | DeleteSubGraph(root: Handle)

  /** The steps that delete or detach physics entities. */
  predicate IsPhysicsStep(x: DeleteStep)
  {
    x.DeleteCollider? || x.DeleteBody? || x.DeleteJoint? || x.ResetConnectedBody?
  }

  // ---------------------------------------------------------------- one body

  /** A `DeleteCollider` for each collider of a body, in the body's order. */
  function ColliderDeletes(colliders: seq<Handle>): (r: seq<DeleteStep>)
    ensures |r| == |colliders|
    ensures forall i :: 0 <= i < |r| ==> r[i] == DeleteCollider(colliders[i])
  {
    if colliders == [] then []
    else ColliderDeletes(colliders[..|colliders| - 1]) + [DeleteCollider(colliders[|colliders| - 1])]
  }

  /** A `ResetConnectedBody` for each joint of `hs`, in order, whose second body is `body`. */
  function ConnectedBodyResets(joints: Pool<Joint>, hs: seq<Handle>, body: Handle): (r: seq<DeleteStep>)
    requires forall h :: h in hs ==> IsLive(joints, h)
    ensures forall j :: ResetConnectedBody(j) in r <==> j in hs && Get(joints, j).body2 == body
    ensures forall i :: 0 <= i < |r| ==> r[i].ResetConnectedBody?
  {
    if hs == [] then []
    else
      var last := hs[|hs| - 1];
      var init := ConnectedBodyResets(joints, hs[..|hs| - 1], body);
      assert forall j :: j in hs <==> j in hs[..|hs| - 1] || j == last;
      if Get(joints, last).body2 == body then init + [ResetConnectedBody(last)] else init
  }

  /** After a body's own deletion: its joint's deletion, if it has one, and the resets of the joints connected to it. */
  function JointSteps(ph: Physics, body: Handle): (r: seq<DeleteStep>)
    requires Valid(ph.joints)
    ensures forall i :: 0 <= i < |r| ==> r[i].DeleteJoint? || r[i].ResetConnectedBody?
  {
    LiveHandlesExact(ph.joints);
    var joint := FindJoint(ph, body);
    (if joint != NONE then [DeleteJoint(joint)] else [])
    + ConnectedBodyResets(ph.joints, LiveHandles(ph.joints), body)
  }

  /**
   * A body's joint steps delete exactly the joint `find_joint` returns, when
   * there is one, and reset exactly the live joints whose second body it is.
   */
  lemma JointStepsContents(ph: Physics, body: Handle)
    requires Valid(ph.joints)
    ensures forall j :: DeleteJoint(j) in JointSteps(ph, body) <==> j != NONE && j == FindJoint(ph, body)
    ensures forall j :: ResetConnectedBody(j) in JointSteps(ph, body) <==> IsLive(ph.joints, j) && Get(ph.joints, j).body2 == body
  {
    LiveHandlesExact(ph.joints);
    var joint := FindJoint(ph, body);
    var js := if joint != NONE then [DeleteJoint(joint)] else [];
    var resets := ConnectedBodyResets(ph.joints, LiveHandles(ph.joints), body);
    assert JointSteps(ph, body) == js + resets;
    forall j
      ensures DeleteJoint(j) in js + resets <==> j != NONE && j == joint
    {
      assert DeleteJoint(j) !in resets;
    }
    forall j
      ensures ResetConnectedBody(j) in js + resets <==> ResetConnectedBody(j) in resets
    {
    }
  }

  /**
   * The steps the walk adds for a node bound to `body`: its colliders' deletions,
   * the body's, then its joint steps. `None` when `body` is dead (indexing it panics).
   */
  function BodyDeletes(ph: Physics, body: Handle): (r: Option<seq<DeleteStep>>)
    requires Valid(ph.joints)
    ensures r.Some? <==> IsLive(ph.bodies, body)
    ensures r.Some? ==> forall i :: 0 <= i < |r.value| ==> IsPhysicsStep(r.value[i])
  {
    if !IsLive(ph.bodies, body) then None
    else Some(ColliderDeletes(Get(ph.bodies, body).colliders) + [DeleteBody(body)] + JointSteps(ph, body))
  }

  /**
   * A body's steps delete exactly its colliders, in order, and then the body,
   * and the body's deletion is its only `DeleteBody`; every step is a physics step.
   */
  lemma BodyDeletesLayout(ph: Physics, body: Handle)
    requires Valid(ph.joints) && IsLive(ph.bodies, body)
    ensures var r := BodyDeletes(ph, body).value;
      var cols := Get(ph.bodies, body).colliders;
      |cols| < |r|
      && (forall i :: 0 <= i < |cols| ==> r[i] == DeleteCollider(cols[i]))
      && r[|cols|] == DeleteBody(body)
      && (forall i, b :: 0 <= i < |r| && r[i] == DeleteBody(b) ==> i == |cols| && b == body)
      && (forall i :: 0 <= i < |r| ==> IsPhysicsStep(r[i]))
  {
    var cols := Get(ph.bodies, body).colliders;
    var head := ColliderDeletes(cols) + [DeleteBody(body)];
    var tail := JointSteps(ph, body);
    JointStepsContents(ph, body);
    var r := head + tail;
    assert forall i :: 0 <= i < |head| ==> r[i] == head[i];
    assert forall i :: |head| <= i < |r| ==> r[i] == tail[i - |head|];
  }

  /** The steps the walk adds for a node: none when it has no body. */
  function NodeDeletes(ph: Physics, node: Handle): (r: Option<seq<DeleteStep>>)
    requires Valid(ph.joints)
  {
    match ValueOf(ph.binder, node)
    case None => Some([])
    case Some(body) => BodyDeletes(ph, body)
  }

  // ---------------------------------------------------------------- the walk

  /**
   * The `while let Some(node) = stack.pop()` walk: pop a node, add the steps for
   * its body, push its children (indexing a dead node panics).
   */
  function Cascade(g: Graph, ph: Physics, stack: seq<Handle>, fuel: nat): (r: Option<seq<DeleteStep>>)
    requires Valid(ph.joints)
    decreases fuel
  {
    if stack == [] then Some([])
    else if fuel == 0 then None
    else
      var node := stack[|stack| - 1];
      match NodeDeletes(ph, node)
      case None => None
      case Some(steps) =>
        if !IsLive(g.pool, node) then None
        else
          match Cascade(g, ph, stack[..|stack| - 1] + Children(g, node), fuel - 1)
          case None => None
          case Some(rest) => Some(steps + rest)
  }

  /** The node steps of `nodes`, concatenated in order; `None` if any of them panics. */
  function PhysicsDeletes(ph: Physics, nodes: seq<Handle>): (r: Option<seq<DeleteStep>>)
    requires Valid(ph.joints)
    ensures r.Some? <==> forall n :: n in nodes && ValueOf(ph.binder, n).Some? ==> IsLive(ph.bodies, ValueOf(ph.binder, n).value)
    ensures r.Some? ==> forall i :: 0 <= i < |r.value| ==> IsPhysicsStep(r.value[i])
  {
    if nodes == [] then Some([])
    else
      match NodeDeletes(ph, nodes[0])
      case None => None
      case Some(steps) =>
        assert forall n :: n in nodes <==> n == nodes[0] || n in nodes[1..];
        match PhysicsDeletes(ph, nodes[1..])
        case None => None
        case Some(rest) =>
          assert forall i :: |steps| <= i < |steps + rest| ==> (steps + rest)[i] == rest[i - |steps|];
          Some(steps + rest)
  }

  /**
   * The walk visits exactly the nodes of the depth-first traversal of the
   * sub-graphs on the stack, in that order, and adds each one's steps.
   */
  lemma {:induction false} CascadeIsTraversal(g: Graph, ph: Physics, stack: seq<Handle>, fuel: nat)
    requires Valid(ph.joints)
    ensures Cascade(g, ph, stack, fuel) ==
      match TraverseFrom(g, stack, fuel)
      case None => None
      case Some(nodes) => PhysicsDeletes(ph, nodes)
    decreases fuel
  {
    if stack != [] && fuel > 0 {
      var node := stack[|stack| - 1];
      if IsLive(g.pool, node) {
        var next := stack[..|stack| - 1] + Children(g, node);
        CascadeIsTraversal(g, ph, next, fuel - 1);
        match TraverseFrom(g, next, fuel - 1)
        case None =>
        case Some(rest) =>
          assert ([node] + rest)[0] == node && ([node] + rest)[1..] == rest;
      } else {
        match NodeDeletes(ph, node)
        case None =>
        case Some(_) =>
      }
    }
  }

  /** The walk deletes the body of every bound node it visits, and no other body. */
  lemma {:induction false} PhysicsDeletesBodies(ph: Physics, nodes: seq<Handle>)
    requires Valid(ph.joints) && PhysicsDeletes(ph, nodes).Some?
    ensures forall n :: n in nodes && ValueOf(ph.binder, n).Some? ==> DeleteBody(ValueOf(ph.binder, n).value) in PhysicsDeletes(ph, nodes).value
    ensures forall b :: DeleteBody(b) in PhysicsDeletes(ph, nodes).value ==> exists n :: n in nodes && ValueOf(ph.binder, n) == Some(b)
    decreases |nodes|
  {
    if nodes != [] {
      var steps := NodeDeletes(ph, nodes[0]).value;
      var rest := PhysicsDeletes(ph, nodes[1..]).value;
      PhysicsDeletesBodies(ph, nodes[1..]);
      assert PhysicsDeletes(ph, nodes).value == steps + rest;
      assert forall n :: n in nodes <==> n == nodes[0] || n in nodes[1..];
      match ValueOf(ph.binder, nodes[0])
      case None =>
      case Some(b0) =>
        BodyDeletesLayout(ph, b0);
        assert steps[|Get(ph.bodies, b0).colliders|] == DeleteBody(b0);
        forall b | DeleteBody(b) in steps
          ensures b == b0
        {
          var i :| 0 <= i < |steps| && steps[i] == DeleteBody(b);
        }
    }
  }

  /** Within one node's steps, a body's `k`-th collider is deleted at step `k`, before the body. */
  lemma NodeCollidersFirst(ph: Physics, node: Handle, j: nat, b: Handle, k: nat)
    requires Valid(ph.joints) && NodeDeletes(ph, node).Some?
    requires j < |NodeDeletes(ph, node).value| && NodeDeletes(ph, node).value[j] == DeleteBody(b)
    requires IsLive(ph.bodies, b) && k < |Get(ph.bodies, b).colliders|
    ensures k < j && NodeDeletes(ph, node).value[k] == DeleteCollider(Get(ph.bodies, b).colliders[k])
  {
    var b0 := ValueOf(ph.binder, node).value;
    BodyDeletesLayout(ph, b0);
  }

  /** Where the walk deletes a body, it has deleted each of the body's colliders at an earlier step `i`. */
  lemma {:induction false} ColliderDeletedBefore(ph: Physics, nodes: seq<Handle>, j: nat, b: Handle, k: nat) returns (i: nat)
    requires Valid(ph.joints) && PhysicsDeletes(ph, nodes).Some?
    requires j < |PhysicsDeletes(ph, nodes).value| && PhysicsDeletes(ph, nodes).value[j] == DeleteBody(b)
    requires IsLive(ph.bodies, b) && k < |Get(ph.bodies, b).colliders|
    ensures i < j && PhysicsDeletes(ph, nodes).value[i] == DeleteCollider(Get(ph.bodies, b).colliders[k])
    decreases |nodes|
  {
    var steps := NodeDeletes(ph, nodes[0]).value;
    var rest := PhysicsDeletes(ph, nodes[1..]).value;
    var r := steps + rest;
    assert PhysicsDeletes(ph, nodes).value == r;
    if j < |steps| {
      assert steps[j] == DeleteBody(b);
      NodeCollidersFirst(ph, nodes[0], j, b, k);
      i := k;
    } else {
      assert rest[j - |steps|] == DeleteBody(b);
      var i0 := ColliderDeletedBefore(ph, nodes[1..], j - |steps|, b, k);
      i := |steps| + i0;
      assert r[i] == rest[i0];
    }
  }

  /** Wherever the walk deletes a body, it has deleted each of the body's colliders before. */
  lemma PhysicsDeletesCollidersFirst(ph: Physics, nodes: seq<Handle>)
    requires Valid(ph.joints) && PhysicsDeletes(ph, nodes).Some?
    ensures CollidersBeforeBodies(ph, PhysicsDeletes(ph, nodes).value)
  {
    var r := PhysicsDeletes(ph, nodes).value;
    forall j, b, k | 0 <= j < |r| && r[j] == DeleteBody(b) && IsLive(ph.bodies, b) && 0 <= k < |Get(ph.bodies, b).colliders|
      ensures exists i :: 0 <= i < j && r[i] == DeleteCollider(Get(ph.bodies, b).colliders[k])
    {
      var i := ColliderDeletedBefore(ph, nodes, j, b, k);
      assert 0 <= i < j && r[i] == DeleteCollider(Get(ph.bodies, b).colliders[k]);
    }
  }

  // ---------------------------------------------------------------- the group

  /** A `DeleteSubGraph` for each root node, in order. */
  function SubGraphDeletes(roots: seq<Handle>): (r: seq<DeleteStep>)
    ensures |r| == |roots|
    ensures forall i :: 0 <= i < |r| ==> r[i] == DeleteSubGraph(roots[i])
  {
    if roots == [] then [] else SubGraphDeletes(roots[..|roots| - 1]) + [DeleteSubGraph(roots[|roots| - 1])]
  }

  /** The graph selection with the first occurrence of the root removed; empty when something else is selected. */
  function WithoutRoot(selection: Selection, root: Handle): (r: GraphSelection)
    ensures selection.GraphNodes? ==> multiset(r.nodes) == multiset(selection.graph.nodes) - multiset{root}
    ensures !selection.GraphNodes? ==> r.nodes == []
  {
    var nodes := if selection.GraphNodes? then selection.graph.nodes else [];
    GraphSelection(RemoveFirst(nodes, root))
  }

  /**
   * `make_delete_selection_command`: the group's steps, or `None` on a panic.
   * The group is built exactly when every selected node is live and the walk
   * of the root nodes' sub-graphs meets no dead node or body; it is then the
   * selection change, the physics steps of the traversed nodes, and one
   * `DeleteSubGraph` per root node.
   */
  function DeleteSelectionGroup(g: Graph, ph: Physics, selection: Selection): (r: Option<seq<DeleteStep>>)
    requires WellLinked(g) && Valid(ph.joints)
    ensures var sel := WithoutRoot(selection, g.root);
      r.Some? <==>
        (forall h :: h in sel.nodes ==> IsLive(g.pool, h))
        && TraverseFrom(g, RootNodesOf(sel, g), StackFuel(g, RootNodesOf(sel, g))).Some?
        && PhysicsDeletes(ph, TraverseFrom(g, RootNodesOf(sel, g), StackFuel(g, RootNodesOf(sel, g))).value).Some?
    ensures r.Some? ==>
      var sel := WithoutRoot(selection, g.root);
      var roots := RootNodesOf(sel, g);
      r.value == [ClearSelection(sel)] + PhysicsDeletes(ph, TraverseFrom(g, roots, StackFuel(g, roots)).value).value + SubGraphDeletes(roots)
  {
    var sel := WithoutRoot(selection, g.root);
    if !(forall h :: h in sel.nodes ==> IsLive(g.pool, h)) then None
    else
      var roots := RootNodesOf(sel, g);
      CascadeIsTraversal(g, ph, roots, StackFuel(g, roots));
      match Cascade(g, ph, roots, StackFuel(g, roots))
      case None => None
      case Some(steps) => Some([ClearSelection(sel)] + steps + SubGraphDeletes(roots))
  }

  /**
   * When every selected node is live and each root node's own traversal
   * completes, the walk completes and visits those traversals, the last root
   * node's first; the group then exists exactly when no bound body among them
   * is dead.
   */
  lemma DeleteSelectionWalk(g: Graph, ph: Physics, selection: Selection)
    requires WellLinked(g) && Valid(ph.joints)
    requires var sel := WithoutRoot(selection, g.root);
      (forall h :: h in sel.nodes ==> IsLive(g.pool, h))
      && forall x :: x in RootNodesOf(sel, g) ==> Traverse(g, x).Some?
    ensures var sel := WithoutRoot(selection, g.root);
      var roots := RootNodesOf(sel, g);
      TraverseFrom(g, roots, StackFuel(g, roots)) == RootsTraversals(g, roots)
      && (DeleteSelectionGroup(g, ph, selection).Some? <==> PhysicsDeletes(ph, RootsTraversals(g, roots).value).Some?)
  {
    var sel := WithoutRoot(selection, g.root);
    TraverseRoots(g, RootNodesOf(sel, g));
  }

  /**
   * In a group laid out as a selection change, then physics steps, then root
   * deletions: the selection change is only first, the root deletions are the
   * roots and come last, and the physics steps keep their order.
   */
  lemma {:induction false} LayoutFacts(sel: GraphSelection, pd: seq<DeleteStep>, roots: seq<Handle>)
    requires forall i :: 0 <= i < |pd| ==> IsPhysicsStep(pd[i])
    ensures var cs := [ClearSelection(sel)] + pd + SubGraphDeletes(roots);
      (forall i :: 0 < i < |cs| ==> !cs[i].ClearSelection?)
      && (forall h :: DeleteSubGraph(h) in cs <==> h in roots)
      && (forall i, j :: 0 <= i < j < |cs| && cs[i].DeleteSubGraph? ==> cs[j].DeleteSubGraph?)
      && (forall j :: 0 <= j < |cs| && IsPhysicsStep(cs[j]) ==> 1 <= j <= |pd| && cs[j] == pd[j - 1])
      && (forall x :: IsPhysicsStep(x) ==> (x in cs <==> x in pd))
  {
    var head := [ClearSelection(sel)] + pd;
    var tail := SubGraphDeletes(roots);
    var cs := head + tail;
    assert forall i :: 0 <= i < |head| ==> cs[i] == head[i];
    assert forall i :: 1 <= i < |head| ==> head[i] == pd[i - 1];
    assert forall i :: |head| <= i < |cs| ==> cs[i] == tail[i - |head|];
    forall h
      ensures DeleteSubGraph(h) in cs <==> h in roots
    {
      if h in roots {
        var k :| 0 <= k < |roots| && roots[k] == h;
        assert cs[|head| + k] == DeleteSubGraph(h);
      }
    }
    forall x | IsPhysicsStep(x)
      ensures x in cs <==> x in pd
    {
      if x in pd {
        var k :| 0 <= k < |pd| && pd[k] == x;
        assert cs[1 + k] == x;
      }
    }
  }

  /**
   * The group starts by clearing the selection, deletes the sub-graph of exactly
   * the selected nodes that have no selected ancestor, and deletes no sub-graph
   * before the last physics step.
   */
  lemma DeleteSelectionShape(g: Graph, ph: Physics, selection: Selection)
    requires WellLinked(g) && Valid(ph.joints) && DeleteSelectionGroup(g, ph, selection).Some?
    ensures var sel := WithoutRoot(selection, g.root);
      var cs := DeleteSelectionGroup(g, ph, selection).value;
      cs[0] == ClearSelection(sel)
      && (forall i :: 0 < i < |cs| ==> !cs[i].ClearSelection?)
      && (forall h :: DeleteSubGraph(h) in cs <==> h in sel.nodes && !HasSelectedAncestor(g, h, sel.nodes))
      && (forall i, j :: 0 <= i < j < |cs| && cs[i].DeleteSubGraph? ==> cs[j].DeleteSubGraph?)
  {
    var sel := WithoutRoot(selection, g.root);
    var roots := RootNodesOf(sel, g);
    var pd := PhysicsDeletes(ph, TraverseFrom(g, roots, StackFuel(g, roots)).value).value;
    RootsAmongExact(g, sel.nodes, sel.nodes);
    LayoutFacts(sel, pd, roots);
  }

  /** `cs` deletes the body of every bound node of `nodes`, and no other body. */
  ghost predicate DeletesBodiesOf(ph: Physics, nodes: seq<Handle>, cs: seq<DeleteStep>)
  {
    (forall n :: n in nodes && ValueOf(ph.binder, n).Some? ==> DeleteBody(ValueOf(ph.binder, n).value) in cs)
    && (forall b :: DeleteBody(b) in cs ==> exists n :: n in nodes && ValueOf(ph.binder, n) == Some(b))
  }

  /** Wherever `cs` deletes a live body, it has deleted each of the body's colliders before. */
  ghost predicate CollidersBeforeBodies(ph: Physics, cs: seq<DeleteStep>)
  {
    forall j, b, k :: 0 <= j < |cs| && cs[j] == DeleteBody(b) && IsLive(ph.bodies, b) && 0 <= k < |Get(ph.bodies, b).colliders| ==>
      exists i :: 0 <= i < j && cs[i] == DeleteCollider(Get(ph.bodies, b).colliders[k])
  }

  /**
   * Placing the walk's steps between a selection change and root deletions
   * keeps which bodies are deleted and keeps colliders before their bodies.
   */
  lemma LayoutPhysics(ph: Physics, nodes: seq<Handle>, sel: GraphSelection, roots: seq<Handle>)
    requires Valid(ph.joints) && PhysicsDeletes(ph, nodes).Some?
    ensures var cs := [ClearSelection(sel)] + PhysicsDeletes(ph, nodes).value + SubGraphDeletes(roots);
      DeletesBodiesOf(ph, nodes, cs) && CollidersBeforeBodies(ph, cs)
  {
    var pd := PhysicsDeletes(ph, nodes).value;
    var cs := [ClearSelection(sel)] + pd + SubGraphDeletes(roots);
    PhysicsDeletesBodies(ph, nodes);
    LayoutFacts(sel, pd, roots);
    forall b
      ensures DeleteBody(b) in cs <==> DeleteBody(b) in pd
    {
      assert IsPhysicsStep(DeleteBody(b));
    }
    forall j, b, k | 0 <= j < |cs| && cs[j] == DeleteBody(b) && IsLive(ph.bodies, b) && 0 <= k < |Get(ph.bodies, b).colliders|
      ensures exists i :: 0 <= i < j && cs[i] == DeleteCollider(Get(ph.bodies, b).colliders[k])
    {
      assert IsPhysicsStep(cs[j]);
      var i := ColliderDeletedBefore(ph, nodes, j - 1, b, k);
      assert IsPhysicsStep(pd[i]) && pd[i] in cs;
      assert cs[1 + i] == pd[i];
    }
  }

  /**
   * The group deletes the body of every bound node of the deleted sub-graphs,
   * deletes no other body, and deletes each body's colliders before the body.
   */
  lemma DeleteSelectionPhysics(g: Graph, ph: Physics, selection: Selection)
    requires WellLinked(g) && Valid(ph.joints) && DeleteSelectionGroup(g, ph, selection).Some?
    ensures var sel := WithoutRoot(selection, g.root);
      var cs := DeleteSelectionGroup(g, ph, selection).value;
      DeletesBodiesOf(ph, TraverseFrom(g, RootNodesOf(sel, g), StackFuel(g, RootNodesOf(sel, g))).value, cs)
      && CollidersBeforeBodies(ph, cs)
  {
    var sel := WithoutRoot(selection, g.root);
    var roots := RootNodesOf(sel, g);
    LayoutPhysics(ph, TraverseFrom(g, roots, StackFuel(g, roots)).value, sel, roots);
  }

  // ---------------------------------------------------------------- the loops

  /** The loop over a body's colliders. */
  method PushColliderDeletes(colliders: seq<Handle>, group: seq<DeleteStep>) returns (r: seq<DeleteStep>)
    ensures r == group + ColliderDeletes(colliders)
  {
    r := group;
    for i := 0 to |colliders|
      invariant r == group + ColliderDeletes(colliders[..i])
    {
      assert colliders[..i + 1][..i] == colliders[..i];
      r := r + [DeleteCollider(colliders[i])];
    }
    assert colliders[..|colliders|] == colliders;
  }

  /** The loop over `pair_iter` of the joints. */
  method PushConnectedBodyResets(joints: Pool<Joint>, handles: seq<Handle>, body: Handle, group: seq<DeleteStep>) returns (r: seq<DeleteStep>)
    requires forall h :: h in handles ==> IsLive(joints, h)
    ensures r == group + ConnectedBodyResets(joints, handles, body)
  {
    r := group;
    for i := 0 to |handles|
      invariant r == group + ConnectedBodyResets(joints, handles[..i], body)
    {
      assert handles[..i + 1][..i] == handles[..i];
      if Get(joints, handles[i]).body2 == body {
        r := r + [ResetConnectedBody(handles[i])];
      }
    }
    assert handles[..|handles|] == handles;
  }

  /** The steps for one bound body, pushed as the source pushes them. */
  method PushBodySteps(ph: Physics, body: Handle, group: seq<DeleteStep>) returns (r: seq<DeleteStep>)
    requires Valid(ph.joints) && IsLive(ph.bodies, body)
    ensures r == group + BodyDeletes(ph, body).value
  {
    var steps := PushColliderDeletes(Get(ph.bodies, body).colliders, []);
    steps := steps + [DeleteBody(body)];
    var joint := FindJoint(ph, body);
    var tail := if joint != NONE then [DeleteJoint(joint)] else [];
    LiveHandlesExact(ph.joints);
    tail := PushConnectedBodyResets(ph.joints, LiveHandles(ph.joints), body, tail);
    assert tail == JointSteps(ph, body);
    assert [] + ColliderDeletes(Get(ph.bodies, body).colliders) == ColliderDeletes(Get(ph.bodies, body).colliders);
    r := group + (steps + tail);
  }

  /** The steps `acc` followed by the outcome `rest` of a walk; `None` if the walk panics. */
  function AfterSteps(acc: seq<DeleteStep>, rest: Option<seq<DeleteStep>>): Option<seq<DeleteStep>>
  {
    match rest
    case None => None
    case Some(steps) => Some(acc + steps)
  }

  /** The `while let Some(node) = stack.pop()` loop, pushing onto `group`. */
  method WalkStack(g: Graph, ph: Physics, roots: seq<Handle>, group: seq<DeleteStep>) returns (r: Option<seq<DeleteStep>>)
    requires Valid(ph.joints)
    ensures r == AfterSteps(group, Cascade(g, ph, roots, StackFuel(g, roots)))
  {
    var steps := group;
    var stack := roots;
    var fuel: nat := StackFuel(g, roots);
    while stack != []
      invariant AfterSteps(group, Cascade(g, ph, roots, StackFuel(g, roots))) == AfterSteps(steps, Cascade(g, ph, stack, fuel))
      decreases fuel
    {
      if fuel == 0 {
        return None;
      }
      var node := stack[|stack| - 1];
      stack := stack[..|stack| - 1];
      ghost var before := steps;
      match ValueOf(ph.binder, node) {
        case None =>
        case Some(body) =>
          if !IsLive(ph.bodies, body) {
            return None;
          }
          steps := PushBodySteps(ph, body, steps);
      }
      if !IsLive(g.pool, node) {
        return None;
      }
      assert steps == before + NodeDeletes(ph, node).value;
      AfterStepsAssoc(before, NodeDeletes(ph, node).value, Cascade(g, ph, stack + Children(g, node), fuel - 1));
      stack := stack + Children(g, node);
      fuel := fuel - 1;
    }
    assert steps + [] == steps;
    return Some(steps);
  }

  /** The final loop: one `DeleteSubGraph` per root node. */
  method PushSubGraphDeletes(roots: seq<Handle>, group: seq<DeleteStep>) returns (r: seq<DeleteStep>)
    ensures r == group + SubGraphDeletes(roots)
  {
    r := group;
    for j := 0 to |roots|
      invariant r == group + SubGraphDeletes(roots[..j])
    {
      assert roots[..j + 1][..j] == roots[..j];
      r := r + [DeleteSubGraph(roots[j])];
    }
    assert roots[..|roots|] == roots;
  }

  /** The selection with the root's first position removed, as `position` and `remove` compute it. */
  method RemoveRoot(selection: Selection, root: Handle) returns (sel: GraphSelection)
    ensures sel == WithoutRoot(selection, root)
  {
    var nodes := if selection.GraphNodes? then selection.graph.nodes else [];
    var position := IndexOf(nodes, root);
    if position < |nodes| {
      nodes := RemoveAt(nodes, position);
    }
    sel := GraphSelection(nodes);
  }

  /**
   * `make_delete_selection_command`, with the loops of the source: the group it
   * builds is the one `DeleteSelectionGroup` describes.
   */
  method MakeDeleteSelectionCommand(g: Graph, ph: Physics, selection: Selection) returns (r: Option<seq<DeleteStep>>)
    requires WellLinked(g) && Valid(ph.joints)
    ensures r == DeleteSelectionGroup(g, ph, selection)
  {
    var sel := RemoveRoot(selection, g.root);
    var live := AllLive(g, sel.nodes);
    if !live {
      return None;
    }
    var roots := RootNodes(sel, g);
    CascadeIsTraversal(g, ph, roots, StackFuel(g, roots));
    r := WalkStack(g, ph, roots, [ClearSelection(sel)]);
    if r.Some? {
      var group := PushSubGraphDeletes(roots, r.value);
      r := Some(group);
    }
  }

  lemma AfterStepsAssoc(acc: seq<DeleteStep>, steps: seq<DeleteStep>, rest: Option<seq<DeleteStep>>)
    ensures AfterSteps(acc + steps, rest) == AfterSteps(acc, AfterSteps(steps, rest))
  {
    match rest
    case None =>
    case Some(tail) =>
      assert (acc + steps) + tail == acc + (steps + tail);
  }

  /** When the selection lists the graph's root at most once, the group never deletes the root's sub-graph. */
  lemma DeleteSelectionKeepsRoot(g: Graph, ph: Physics, selection: Selection)
    requires WellLinked(g) && Valid(ph.joints) && DeleteSelectionGroup(g, ph, selection).Some?
    requires selection.GraphNodes? ==> multiset(selection.graph.nodes)[g.root] <= 1
    ensures DeleteSubGraph(g.root) !in DeleteSelectionGroup(g, ph, selection).value
  {
    var sel := WithoutRoot(selection, g.root);
    assert multiset(sel.nodes)[g.root] == 0;
    DeleteSelectionShape(g, ph, selection);
  }

  /**
   * Only the first occurrence of the root is removed: a selection listing the root
   * of a fresh graph twice yields a group that deletes the root's sub-graph.
   */
  lemma RootListedTwiceIsDeleted()
    ensures var g := NewGraph();
      var c := DeleteSelectionGroup(g, EmptyPhysics, GraphNodes(GraphSelection([g.root, g.root])));
      c.Some? && DeleteSubGraph(g.root) in c.value
  {
    var g := NewGraph();
    var selection := GraphNodes(GraphSelection([g.root, g.root]));
    var sel := WithoutRoot(selection, g.root);
    FreshRootRemoved();
    FreshRootIsRootNode();
    FreshRootWalks();
    GroupWithoutPhysics(g, EmptyPhysics, selection, [g.root]);
    assert SubGraphDeletes([g.root]) == [DeleteSubGraph(g.root)];
  }

  /**
   * A selection listing a fresh graph's root three times still lists it twice
   * once its first occurrence is removed; both are root nodes, and the group
   * deletes the root's sub-graph once for each.
   */
  lemma RootListedThriceIsDeletedTwice()
    ensures var g := NewGraph();
      DeleteSelectionGroup(g, EmptyPhysics, GraphNodes(GraphSelection([g.root, g.root, g.root])))
        == Some([ClearSelection(GraphSelection([g.root, g.root]))] + SubGraphDeletes([g.root, g.root]))
      && SubGraphDeletes([g.root, g.root]) == [DeleteSubGraph(g.root), DeleteSubGraph(g.root)]
  {
    var g := NewGraph();
    var selection := GraphNodes(GraphSelection([g.root, g.root, g.root]));
    FreshRootRemoved();
    FreshRootIsRootNode();
    FreshRootWalks();
    GroupWithoutPhysics(g, EmptyPhysics, selection, [g.root, g.root]);
    SubGraphDeletesTwice(g.root);
  }

  lemma SubGraphDeletesTwice(h: Handle)
    ensures SubGraphDeletes([h, h]) == [DeleteSubGraph(h), DeleteSubGraph(h)]
  {
    assert [h, h][..1] == [h] && [h][..0] == [];
  }

  /** A group whose walk, over `roots`, adds `steps`. */
  lemma GroupOfSteps(g: Graph, ph: Physics, selection: Selection, roots: seq<Handle>, steps: seq<DeleteStep>)
    requires WellLinked(g) && Valid(ph.joints)
    requires var sel := WithoutRoot(selection, g.root);
      (forall h :: h in sel.nodes ==> IsLive(g.pool, h)) && RootNodesOf(sel, g) == roots
    requires TraverseFrom(g, roots, StackFuel(g, roots)).Some?
    requires PhysicsDeletes(ph, TraverseFrom(g, roots, StackFuel(g, roots)).value) == Some(steps)
    ensures DeleteSelectionGroup(g, ph, selection)
      == Some([ClearSelection(WithoutRoot(selection, g.root))] + steps + SubGraphDeletes(roots))
  {
  }

  /** A group whose walk, over `roots`, adds no physics step. */
  lemma GroupWithoutPhysics(g: Graph, ph: Physics, selection: Selection, roots: seq<Handle>)
    requires WellLinked(g) && Valid(ph.joints)
    requires var sel := WithoutRoot(selection, g.root);
      (forall h :: h in sel.nodes ==> IsLive(g.pool, h)) && RootNodesOf(sel, g) == roots
    requires TraverseFrom(g, roots, StackFuel(g, roots)).Some?
    requires PhysicsDeletes(ph, TraverseFrom(g, roots, StackFuel(g, roots)).value) == Some([])
    ensures DeleteSelectionGroup(g, ph, selection)
      == Some([ClearSelection(WithoutRoot(selection, g.root))] + SubGraphDeletes(roots))
  {
    var c := ClearSelection(WithoutRoot(selection, g.root));
    assert [c] + [] + SubGraphDeletes(roots) == [c] + SubGraphDeletes(roots);
    GroupOfSteps(g, ph, selection, roots, []);
  }

  /** Removing the root's first occurrence from a selection of the root repeated twice, or three times. */
  lemma FreshRootRemoved()
    ensures var r := NewGraph().root;
      WithoutRoot(GraphNodes(GraphSelection([r, r])), r) == GraphSelection([r])
      && WithoutRoot(GraphNodes(GraphSelection([r, r, r])), r) == GraphSelection([r, r])
  {
    var r := NewGraph().root;
    assert IndexOf([r, r], r) == 0 && IndexOf([r, r, r], r) == 0;
    assert [r, r][..0] + [r, r][1..] == [r];
    assert [r, r, r][..0] + [r, r, r][1..] == [r, r];
  }

  /** In a fresh graph, the root selected once, or twice, is a root node each time. */
  lemma FreshRootIsRootNode()
    ensures var g := NewGraph();
      RootNodesOf(GraphSelection([g.root]), g) == [g.root]
      && RootNodesOf(GraphSelection([g.root, g.root]), g) == [g.root, g.root]
  {
    var g := NewGraph();
    var one := [g.root];
    var two := [g.root, g.root];
    assert Children(g, g.root) == [];
    assert !AnyChildReaches(g, g.root, [], Depth(g) - 1);
    assert !IsDescendantOf(g, g.root, g.root, Depth(g));
    assert !HasSelectedAncestor(g, g.root, one);
    assert !HasSelectedAncestor(g, g.root, two);
    assert one[..0] == [] && two[..1] == one;
    assert RootsAmong(g, one, []) == [] && RootsAmong(g, two, []) == [];
    assert RootsAmong(g, two, one) == [g.root];
  }

  /** In a fresh graph with no physics, walking the root once, or twice, visits it that often and adds no step. */
  lemma FreshRootWalks()
    ensures var g := NewGraph();
      TraverseFrom(g, [g.root], StackFuel(g, [g.root])) == Some([g.root])
      && TraverseFrom(g, [g.root, g.root], StackFuel(g, [g.root, g.root])) == Some([g.root, g.root])
      && PhysicsDeletes(EmptyPhysics, TraverseFrom(g, [g.root], StackFuel(g, [g.root])).value) == Some([])
      && PhysicsDeletes(EmptyPhysics, TraverseFrom(g, [g.root, g.root], StackFuel(g, [g.root, g.root])).value) == Some([])
  {
    var g := NewGraph();
    assert Children(g, g.root) == [];
    assert [g.root][..0] == [] && [g.root, g.root][..1] == [g.root];
    assert StackFuel(g, [g.root]) == 1 && StackFuel(g, [g.root, g.root]) == 2;
    assert [g.root][..0] + Children(g, g.root) == [];
    TraverseFromPop(g, [g.root], 1, g.root, []);
    assert [g.root, g.root][..1] + Children(g, g.root) == [g.root];
    TraverseFromPop(g, [g.root, g.root], 2, g.root, [g.root]);
    assert [g.root] + [g.root] == [g.root, g.root];
    assert NodeDeletes(EmptyPhysics, g.root) == Some([]);
    assert [g.root, g.root][1..] == [g.root] && [g.root][1..] == [];
  }

}
