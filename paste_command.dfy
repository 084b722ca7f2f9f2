/**
 * `PasteCommand`: the first execution clones the clipboard into the scene and
 * selects the pasted roots; revert reserves the pasted sub-graphs, bodies,
 * colliders and joints, unbinds the pasted nodes and restores the selection;
 * a later execution puts everything back, binds the nodes again and selects the
 * roots again; finalize of a reverted paste forgets every reservation. The
 * binder entries of the paste result are visited in the order they were made.
 */
module PasteCommands {
  import opened Pools
  import opened Entities
  import opened SceneGraph
  import opened PhysicsWorld
  import opened Selections
  import opened DeepClones
  import opened Scenes

  /** `PasteCommandState`. */
  datatype PasteStage =
    | PasteUndefined
    | PasteNonExecuted
    | PasteReverted(
        subgraphs: seq<SubGraph>,
        bodies: seq<(Ticket, RigidBody)>,
        colliders: seq<(Ticket, Collider)>,
        joints: seq<(Ticket, Joint)>,
        binder: seq<(Handle, Handle)>,
        selection: Selection)
    | PasteExecuted(pasteResult: DeepCloneResult, lastSelection: Selection)

  // ---------------------------------------------------------------- binder

  /** `remove_by_key` for the node of every entry. */
  function RemoveKeys(b: Binder, entries: seq<(Handle, Handle)>): (r: Binder)
    ensures forall k :: k in EntryKeys(entries) ==> k !in r.forward
    ensures forall k :: k !in EntryKeys(entries) ==> ValueOf(r, k) == ValueOf(b, k)
    decreases |entries|
  {
    if entries == [] then b
    else
      var init := entries[..|entries| - 1];
      var last := entries[|entries| - 1];
      assert EntryKeys(entries) == EntryKeys(init) + {last.0} by {
        assert entries == init + [last];
      }
      RemoveByKey(RemoveKeys(b, init), last.0)
  }

  /**
   * `insert` of every entry, in order: a later entry for the same node wins. The
   * source's `DeepCloneResult::binder` is a `HashMap`, so each node has one entry
   * there; the list kept here can repeat a node only when two pasted roots share
   * a sub-graph, which the root nodes of a selection never do. A superseded entry
   * would leave a stale backward entry for its body.
   */
  function InsertEntries(b: Binder, entries: seq<(Handle, Handle)>): (r: Binder)
    ensures forall i :: LatestEntry(entries, i) ==> ValueOf(r, entries[i].0) == Some(entries[i].1)
    ensures forall k :: k !in EntryKeys(entries) ==> ValueOf(r, k) == ValueOf(b, k)
    decreases |entries|
  {
    if entries == [] then b
    else
      var init := entries[..|entries| - 1];
      var last := entries[|entries| - 1];
      assert EntryKeys(entries) == EntryKeys(init) + {last.0} by {
        assert entries == init + [last];
      }
      assert forall i :: LatestEntry(entries, i) && i < |init| ==> LatestEntry(init, i) && entries[i] == init[i];
      BinderInsert(InsertEntries(b, init), last.0, last.1)
  }

  /** Every node of the entries has a latest entry. */
  lemma {:induction false} HasLatestEntry(entries: seq<(Handle, Handle)>, k: Handle)
    requires k in EntryKeys(entries)
    ensures exists i :: LatestEntry(entries, i) && entries[i].0 == k
    decreases |entries|
  {
    var n := |entries| - 1;
    if entries[n].0 != k {
      var init := entries[..n];
      assert entries == init + [entries[n]];
      assert k in EntryKeys(init);
      HasLatestEntry(init, k);
      var i :| LatestEntry(init, i) && init[i].0 == k;
      assert LatestEntry(entries, i);
    } else {
      assert LatestEntry(entries, n);
    }
  }

  /**
   * Unbinding the nodes of the entries and binding them again gives back every
   * node's binding, when the binder held the latest entry for each node.
   */
  lemma BinderRoundTrip(b: Binder, entries: seq<(Handle, Handle)>)
    requires forall i :: LatestEntry(entries, i) ==> ValueOf(b, entries[i].0) == Some(entries[i].1)
    ensures InsertEntries(RemoveKeys(b, entries), entries).forward == b.forward
  {
    var r := InsertEntries(RemoveKeys(b, entries), entries);
    forall k ensures ValueOf(r, k) == ValueOf(b, k) {
      if k in EntryKeys(entries) {
        HasLatestEntry(entries, k);
      }
    }
    assert forall k :: k in r.forward <==> k in b.forward by {
      forall k ensures k in r.forward <==> k in b.forward {
        assert ValueOf(r, k) == ValueOf(b, k);
      }
    }
    forall k | k in r.forward ensures r.forward[k] == b.forward[k] {
      assert ValueOf(r, k) == ValueOf(b, k);
    }
  }

  // ---------------------------------------------------------------- sub-graphs

  /** `take_reserve_sub_graph` of every root, in order; `None` when one of them panics. */
  function TakeSubGraphs(g: Graph, roots: seq<Handle>): (r: Option<(Graph, seq<SubGraph>)>)
    ensures r.Some? ==> |r.value.1| == |roots| && r.value.0.root == g.root
    ensures r.Some? ==> forall x :: IsLive(r.value.0.pool, x) ==> IsLive(g.pool, x)
    ensures r.Some? ==> forall x :: x in roots ==> !IsLive(r.value.0.pool, x)
    decreases |roots|
  {
    if roots == [] then Some((g, []))
    else if !CanTakeSubGraph(g, roots[0]) then None
    else
      var (g1, sg) := TakeReserveSubGraph(g, roots[0]);
      TakeReserveSubGraphShrinks(g, roots[0]);
      match TakeSubGraphs(g1, roots[1..])
      case None => None
      case Some((g2, sgs)) =>
        TakeSubGraphsStep(g, g1, g2, roots);
        Some((g2, [sg] + sgs))
  }

  /** Reserving a sub-graph takes its root out and brings no node to life. */
  lemma TakeReserveSubGraphShrinks(g: Graph, root: Handle)
    requires CanTakeSubGraph(g, root)
    ensures var g1 := TakeReserveSubGraph(g, root).0;
      !IsLive(g1.pool, root) && forall x :: IsLive(g1.pool, x) ==> IsLive(g.pool, x)
  {
    assert Traverse(g, root).value[0] == root;
  }

  /** Taking the first root's sub-graph, then the others', leaves every root dead and brings no node to life. */
  lemma TakeSubGraphsStep(g: Graph, g1: Graph, g2: Graph, roots: seq<Handle>)
    requires roots != [] && !IsLive(g1.pool, roots[0])
    requires forall x :: IsLive(g1.pool, x) ==> IsLive(g.pool, x)
    requires forall x :: IsLive(g2.pool, x) ==> IsLive(g1.pool, x)
    requires forall x :: x in roots[1..] ==> !IsLive(g2.pool, x)
    ensures forall x :: IsLive(g2.pool, x) ==> IsLive(g.pool, x)
    ensures forall x :: x in roots ==> !IsLive(g2.pool, x)
  {
    assert forall x :: x in roots ==> x == roots[0] || x in roots[1..];
  }

  /** `put_sub_graph_back` of every sub-graph, in order; `None` when one of them panics. */
  function PutSubGraphsBack(g: Graph, sgs: seq<SubGraph>): (r: Option<(Graph, seq<Handle>)>)
    ensures r.Some? ==> |r.value.1| == |sgs| && r.value.0.root == g.root
    ensures r.Some? ==> forall x :: IsLive(g.pool, x) ==> IsLive(r.value.0.pool, x)
    ensures r.Some? ==> forall h :: h in r.value.1 ==> IsLive(r.value.0.pool, h)
    decreases |sgs|
  {
    if sgs == [] then Some((g, []))
    else if !CanPutSubGraphBack(g, sgs[0]) then None
    else
      var (g1, h) := PutSubGraphBack(g, sgs[0]);
      match PutSubGraphsBack(g1, sgs[1..])
      case None => None
      case Some((g2, hs)) => Some((g2, [h] + hs))
  }

  /** Whether `forget_sub_graph` of one sub-graph does not panic. */
  predicate CanForgetSubGraph(g: Graph, sg: SubGraph)
  {
    var ts := SubGraphTickets(sg);
    (forall i :: 0 <= i < |ts| ==> IsReserved(g.pool, ts[i]))
    && (forall a, b :: 0 <= a < b < |ts| ==> ts[a] != ts[b])
  }

  /** `forget_sub_graph` of every sub-graph, in order; `None` when one of them panics. */
  function ForgetSubGraphs(g: Graph, sgs: seq<SubGraph>): (r: Option<Graph>)
    ensures r.Some? ==> r.value.root == g.root && SameLive(g.pool, r.value.pool)
    ensures r.Some? ==> forall x :: IsLive(g.pool, x) ==> Get(r.value.pool, x) == Get(g.pool, x)
    decreases |sgs|
  {
    if sgs == [] then Some(g)
    else if !CanForgetSubGraph(g, sgs[0]) then None
    else ForgetSubGraphs(ForgetSubGraph(g, sgs[0]), sgs[1..])
  }

  // ---------------------------------------------------------------- physics

  /** Revert's physics part: reserves the pasted bodies, colliders and joints and unbinds the pasted nodes. */
  function TakePastedPhysics(ph: Physics, res: DeepCloneResult)
    : (r: Option<(Physics, seq<(Ticket, RigidBody)>, seq<(Ticket, Collider)>, seq<(Ticket, Joint)>)>)
    ensures r.Some? <==> CanTakeAll(ph.bodies, res.bodies) && CanTakeAll(ph.colliders, res.colliders) && CanTakeAll(ph.joints, res.joints)
    ensures r.Some? ==> var (ph1, bodies, colliders, joints) := r.value;
      (forall x :: IsLive(ph1.bodies, x) <==> IsLive(ph.bodies, x) && x.index !in Indices(res.bodies))
      && (forall x :: IsLive(ph1.colliders, x) <==> IsLive(ph.colliders, x) && x.index !in Indices(res.colliders))
      && (forall x :: IsLive(ph1.joints, x) <==> IsLive(ph.joints, x) && x.index !in Indices(res.joints))
      && (forall k :: k in EntryKeys(res.binder) ==> k !in ph1.binder.forward)
      && |bodies| == |res.bodies| && |colliders| == |res.colliders| && |joints| == |res.joints|
  {
    if !CanTakeAll(ph.bodies, res.bodies) || !CanTakeAll(ph.colliders, res.colliders) || !CanTakeAll(ph.joints, res.joints) then None
    else
      var (bs, bodies) := TakeAll(ph.bodies, res.bodies);
      var (cs, colliders) := TakeAll(ph.colliders, res.colliders);
      var (js, joints) := TakeAll(ph.joints, res.joints);
      Some((Physics(bs, cs, js, RemoveKeys(ph.binder, res.binder)), bodies, colliders, joints))
  }

  /** A later execution's physics part: puts the bodies, colliders and joints back and binds the nodes again. */
  function PutPastedPhysicsBack(
    ph: Physics, bodies: seq<(Ticket, RigidBody)>, colliders: seq<(Ticket, Collider)>, joints: seq<(Ticket, Joint)>,
    entries: seq<(Handle, Handle)>): (r: Option<(Physics, seq<Handle>, seq<Handle>, seq<Handle>)>)
    ensures r.Some? <==> CanPutAll(ph.bodies, bodies) && CanPutAll(ph.colliders, colliders) && CanPutAll(ph.joints, joints)
    ensures r.Some? ==> |r.value.1| == |bodies| && |r.value.2| == |colliders| && |r.value.3| == |joints|
    ensures r.Some? ==> var (ph1, hb, hc, hj) := r.value;
      (forall i :: 0 <= i < |bodies| ==> IsLive(ph1.bodies, hb[i]) && Get(ph1.bodies, hb[i]) == bodies[i].1)
      && (forall i :: 0 <= i < |colliders| ==> IsLive(ph1.colliders, hc[i]) && Get(ph1.colliders, hc[i]) == colliders[i].1)
      && (forall i :: 0 <= i < |joints| ==> IsLive(ph1.joints, hj[i]) && Get(ph1.joints, hj[i]) == joints[i].1)
      && (forall i :: LatestEntry(entries, i) ==> ValueOf(ph1.binder, entries[i].0) == Some(entries[i].1))
  {
    if !CanPutAll(ph.bodies, bodies) || !CanPutAll(ph.colliders, colliders) || !CanPutAll(ph.joints, joints) then None
    else
      var (bs, hb) := PutAll(ph.bodies, bodies);
      var (cs, hc) := PutAll(ph.colliders, colliders);
      var (js, hj) := PutAll(ph.joints, joints);
      Some((Physics(bs, cs, js, InsertEntries(ph.binder, entries)), hb, hc, hj))
  }

  /**
   * Putting back what revert reserved gives back the same bodies, colliders and
   * joints at the same handles, and every node binding the paste made.
   */
  lemma PastedPhysicsRoundTrip(ph: Physics, res: DeepCloneResult)
    requires TakePastedPhysics(ph, res).Some?
    ensures var (ph1, bodies, colliders, joints) := TakePastedPhysics(ph, res).value;
      PutPastedPhysicsBack(ph1, bodies, colliders, joints, res.binder).Some?
      && var (ph2, hb, hc, hj) := PutPastedPhysicsBack(ph1, bodies, colliders, joints, res.binder).value;
      hb == res.bodies && hc == res.colliders && hj == res.joints
      && ph2.bodies == ph.bodies && ph2.colliders == ph.colliders && ph2.joints == ph.joints
      && ((forall i :: LatestEntry(res.binder, i) ==> ValueOf(ph.binder, res.binder[i].0) == Some(res.binder[i].1))
          ==> ph2.binder.forward == ph.binder.forward)
  {
    var (bs, bodies) := TakeAll(ph.bodies, res.bodies);
    var (cs, colliders) := TakeAll(ph.colliders, res.colliders);
    var (js, joints) := TakeAll(ph.joints, res.joints);
    var ph1 := Physics(bs, cs, js, RemoveKeys(ph.binder, res.binder));
    assert TakePastedPhysics(ph, res).value == (ph1, bodies, colliders, joints);
    TakeAllPutAllExact(ph.bodies, res.bodies);
    TakeAllPutAllExact(ph.colliders, res.colliders);
    TakeAllPutAllExact(ph.joints, res.joints);
    assert PutPastedPhysicsBack(ph1, bodies, colliders, joints, res.binder).value
      == (Physics(ph.bodies, ph.colliders, ph.joints, InsertEntries(ph1.binder, res.binder)), res.bodies, res.colliders, res.joints);
    if forall i :: LatestEntry(res.binder, i) ==> ValueOf(ph.binder, res.binder[i].0) == Some(res.binder[i].1) {
      BinderRoundTrip(ph.binder, res.binder);
    }
  }

  // ---------------------------------------------------------------- command

  /**
   * `execute`: the first time, pastes the clipboard and selects the pasted roots;
   * after a revert, puts the sub-graphs, bodies, colliders and joints back, binds
   * the nodes again and restores the paste's selection. Any other state panics.
   */
  function PasteExecute(s: Scene, c: PasteStage): (r: Option<(Scene, PasteStage)>)
    ensures r.Some? ==> var (s1, c1) := r.value;
      c1.PasteExecuted? && c1.lastSelection == s.selection
      && s1 == s.(graph := s1.graph, physics := s1.physics, selection := s1.selection)
      && (c.PasteNonExecuted? ==> s1.selection == GraphNodes(FromList(c1.pasteResult.rootNodes)))
      && (c.PasteReverted? ==> s1.selection == c.selection && c1.pasteResult.binder == c.binder)
    ensures c.PasteNonExecuted? ==> (r.Some? <==> PasteFrom(s.clipboard, s.graph, s.physics).Some?)
  {
    match c
    case PasteNonExecuted =>
      (match PasteFrom(s.clipboard, s.graph, s.physics)
       case None => None
       case Some((g, ph, res)) =>
         Some((s.(graph := g, physics := ph, selection := GraphNodes(FromList(res.rootNodes))), PasteExecuted(res, s.selection))))
    case PasteReverted(subgraphs, bodies, colliders, joints, entries, selection) =>
      (match PutSubGraphsBack(s.graph, subgraphs)
       case None => None
       case Some((g, roots)) =>
         match PutPastedPhysicsBack(s.physics, bodies, colliders, joints, entries)
         case None => None
         case Some((ph, hb, hc, hj)) =>
           Some((s.(graph := g, physics := ph, selection := selection),
                 PasteExecuted(DeepCloneResult(roots, hc, hb, hj, entries), s.selection))))
    case _ => None
  }

  /**
   * `revert`: only an executed paste is undone (reserving what it made, unbinding
   * its nodes and restoring the selection it replaced); in any other state the
   * command just becomes undefined.
   */
  function PasteRevert(s: Scene, c: PasteStage): (r: Option<(Scene, PasteStage)>)
    ensures !c.PasteExecuted? ==> r == Some((s, PasteUndefined))
    ensures c.PasteExecuted? && r.Some? ==> var (s1, c1) := r.value;
      c1.PasteReverted? && c1.selection == s.selection && c1.binder == c.pasteResult.binder
      && s1 == s.(graph := s1.graph, physics := s1.physics, selection := c.lastSelection)
      && (forall x :: x in c.pasteResult.rootNodes ==> !IsLive(s1.graph.pool, x))
  {
    match c
    case PasteExecuted(res, lastSelection) =>
      (match TakeSubGraphs(s.graph, res.rootNodes)
       case None => None
       case Some((g, subgraphs)) =>
         match TakePastedPhysics(s.physics, res)
         case None => None
         case Some((ph, bodies, colliders, joints)) =>
           Some((s.(graph := g, physics := ph, selection := lastSelection),
                 PasteReverted(subgraphs, bodies, colliders, joints, res.binder, s.selection))))
    case _ => Some((s, PasteUndefined))
  }

  /**
   * `finalize`: a reverted paste forgets every reserved sub-graph, body, collider
   * and joint, which leaves every live entity as it was; any other state just
   * becomes undefined.
   */
  function PasteFinalize(s: Scene, c: PasteStage): (r: Option<(Scene, PasteStage)>)
    ensures !c.PasteReverted? ==> r == Some((s, PasteUndefined))
    ensures r.Some? ==> var (s1, c1) := r.value;
      c1 == PasteUndefined
      && s1 == s.(graph := s1.graph, physics := s1.physics)
      && SameLive(s.graph.pool, s1.graph.pool) && SameLive(s.physics.bodies, s1.physics.bodies)
      && SameLive(s.physics.colliders, s1.physics.colliders) && SameLive(s.physics.joints, s1.physics.joints)
      && s1.physics.binder == s.physics.binder
  {
    match c
    case PasteReverted(subgraphs, bodies, colliders, joints, _, _) =>
      (match ForgetSubGraphs(s.graph, subgraphs)
       case None => None
       case Some(g) =>
         if !CanPutAll(s.physics.bodies, bodies) || !CanPutAll(s.physics.colliders, colliders) || !CanPutAll(s.physics.joints, joints) then None
         else
           var ph := s.physics.(
             bodies := ForgetAll(s.physics.bodies, TicketsOf(bodies)),
             colliders := ForgetAll(s.physics.colliders, TicketsOf(colliders)),
             joints := ForgetAll(s.physics.joints, TicketsOf(joints)));
           Some((s.(graph := g, physics := ph), PasteUndefined)))
    case _ => Some((s, PasteUndefined))
  }

  /**
   * The first execution of a paste succeeds exactly when the clipboard can be
   * pasted; the new selection holds the pasted root copies (but `NONE`), which
   * are nodes that were not live before and are live now, and the clipboard, the navigation
   * meshes and the message count are untouched.
   */
  lemma PasteSelectsCopies(s: Scene)
    ensures PasteExecute(s, PasteNonExecuted).Some? <==> PasteFrom(s.clipboard, s.graph, s.physics).Some?
    ensures PasteExecute(s, PasteNonExecuted).Some? ==> var (s1, c1) := PasteExecute(s, PasteNonExecuted).value;
      s1.clipboard == s.clipboard && s1.navmeshes == s.navmeshes && s1.selectionChanged == s.selectionChanged
      && c1.lastSelection == s.selection
      && s1.selection.GraphNodes?
      && (forall h :: h in s1.selection.graph.nodes ==> IsLive(s1.graph.pool, h) && !IsLive(s.graph.pool, h))
      && (forall h :: h in c1.pasteResult.rootNodes ==> (h in s1.selection.graph.nodes <==> h != NONE))
  {
    if PasteFrom(s.clipboard, s.graph, s.physics).Some? {
      PastedRootsFresh(s);
      var (g, ph, res) := PasteFrom(s.clipboard, s.graph, s.physics).value;
      var s1 := s.(graph := g, physics := ph, selection := GraphNodes(FromList(res.rootNodes)));
      assert PasteExecute(s, PasteNonExecuted).value == (s1, PasteExecuted(res, s.selection));
      FromListMembers(res.rootNodes);
    }
  }

  /** The pasted roots are nodes of the new graph that were not live before. */
  lemma PastedRootsFresh(s: Scene)
    requires PasteFrom(s.clipboard, s.graph, s.physics).Some?
    ensures var (g, _, res) := PasteFrom(s.clipboard, s.graph, s.physics).value;
      forall h :: h in res.rootNodes ==> IsLive(g.pool, h) && !IsLive(s.graph.pool, h)
  {
    var c := s.clipboard;
    DeepCloneRoots(Children(c.graph, c.graph.root), c.graph, c.physics, s.graph, s.physics);
    var (g, ph, res) := PasteFrom(s.clipboard, s.graph, s.physics).value;
    forall h | h in res.rootNodes ensures IsLive(g.pool, h) && !IsLive(s.graph.pool, h) {
      var i :| 0 <= i < |res.rootNodes| && res.rootNodes[i] == h;
    }
  }

  /**
   * Undo of an executed paste restores the selection it replaced; redo, when the
   * sub-graphs can go back, restores the same bodies, colliders and joints at the
   * same handles, every node binding the paste made (when the binder held them),
   * and the paste's selection, with the same binder entries.
   */
  lemma PasteRedo(s: Scene, res: DeepCloneResult, lastSelection: Selection)
    requires PasteRevert(s, PasteExecuted(res, lastSelection)).Some?
    requires var (s1, c1) := PasteRevert(s, PasteExecuted(res, lastSelection)).value;
      PutSubGraphsBack(s1.graph, c1.subgraphs).Some?
    ensures var (s1, c1) := PasteRevert(s, PasteExecuted(res, lastSelection)).value;
      s1.selection == lastSelection
      && PasteExecute(s1, c1).Some?
      && var (s2, c2) := PasteExecute(s1, c1).value;
      s2.selection == s.selection && c2.lastSelection == lastSelection
      && s2.physics.bodies == s.physics.bodies && s2.physics.colliders == s.physics.colliders
      && s2.physics.joints == s.physics.joints
      && c2.pasteResult.bodies == res.bodies && c2.pasteResult.colliders == res.colliders
      && c2.pasteResult.joints == res.joints && c2.pasteResult.binder == res.binder
      && |c2.pasteResult.rootNodes| == |res.rootNodes|
      && ((forall i :: LatestEntry(res.binder, i) ==> ValueOf(s.physics.binder, res.binder[i].0) == Some(res.binder[i].1))
          ==> s2.physics.binder.forward == s.physics.binder.forward)
  {
    PasteRevertIs(s, res, lastSelection);
    var (g, subgraphs) := TakeSubGraphs(s.graph, res.rootNodes).value;
    var (ph, bodies, colliders, joints) := TakePastedPhysics(s.physics, res).value;
    var s1 := s.(graph := g, physics := ph, selection := lastSelection);
    var c1 := PasteReverted(subgraphs, bodies, colliders, joints, res.binder, s.selection);
    PastedPhysicsRoundTrip(s.physics, res);
    PasteExecuteRevertedIs(s1, c1);
  }

  /** A successful revert, written out. */
  lemma PasteRevertIs(s: Scene, res: DeepCloneResult, lastSelection: Selection)
    requires PasteRevert(s, PasteExecuted(res, lastSelection)).Some?
    ensures TakeSubGraphs(s.graph, res.rootNodes).Some? && TakePastedPhysics(s.physics, res).Some?
    ensures var (g, subgraphs) := TakeSubGraphs(s.graph, res.rootNodes).value;
      var (ph, bodies, colliders, joints) := TakePastedPhysics(s.physics, res).value;
      PasteRevert(s, PasteExecuted(res, lastSelection)).value
        == (s.(graph := g, physics := ph, selection := lastSelection),
            PasteReverted(subgraphs, bodies, colliders, joints, res.binder, s.selection))
  {
  }

  /** A successful later execution, written out. */
  lemma PasteExecuteRevertedIs(s: Scene, c: PasteStage)
    requires c.PasteReverted?
    requires PutSubGraphsBack(s.graph, c.subgraphs).Some?
    requires PutPastedPhysicsBack(s.physics, c.bodies, c.colliders, c.joints, c.binder).Some?
    ensures var (g, roots) := PutSubGraphsBack(s.graph, c.subgraphs).value;
      var (ph, hb, hc, hj) := PutPastedPhysicsBack(s.physics, c.bodies, c.colliders, c.joints, c.binder).value;
      PasteExecute(s, c) == Some((s.(graph := g, physics := ph, selection := c.selection),
                                  PasteExecuted(DeepCloneResult(roots, hc, hb, hj, c.binder), s.selection)))
  {
  }
}
