/**
 * The commands that edit navigation meshes: adding an edge (two vertices and two
 * triangles), connecting two edges (two triangles), deleting a vertex together
 * with every triangle that uses it, and moving a vertex. Adding or deleting a
 * whole navigation mesh, and adding one vertex or triangle, are the pool command
 * shapes of `PoolCommands` applied to the navigation mesh pool or to one mesh's
 * pools. Indexing a dead navigation mesh, and reaching an `unreachable!` state,
 * panics: `None`.
 */
module NavmeshCommands {
  import opened Pools
  import opened Entities
  import opened Selections
  import opened Scenes

  /** The navigation mesh at a live handle. */
  function NavmeshAt(s: Scene, h: Handle): Navmesh
    requires IsLive(s.navmeshes, h)
  {
    Get(s.navmeshes, h)
  }

  /** Replaces one live navigation mesh; the others, and the rest of the scene, are unchanged. */
  function WithNavmesh(s: Scene, h: Handle, m: Navmesh): (r: Scene)
    requires IsLive(s.navmeshes, h)
    ensures r == s.(navmeshes := r.navmeshes)
    ensures IsLive(r.navmeshes, h) && NavmeshAt(r, h) == m && SameLive(s.navmeshes, r.navmeshes)
    ensures forall x :: IsLive(s.navmeshes, x) && x != h ==> Get(r.navmeshes, x) == Get(s.navmeshes, x)
  {
    s.(navmeshes := Set(s.navmeshes, h, m))
  }

  /** Replacing a navigation mesh and then restoring it restores the scene. */
  lemma WithNavmeshRestore(s: Scene, h: Handle, m: Navmesh)
    requires IsLive(s.navmeshes, h)
    ensures WithNavmesh(WithNavmesh(s, h, m), h, NavmeshAt(s, h)) == s
  {
    SetTwice(s.navmeshes, h, m, NavmeshAt(s, h));
    SetSame(s.navmeshes, h);
  }

  /** The vertex pools of two meshes hold the same live vertices with the same values. */
  ghost predicate SameVertices(m: Navmesh, n: Navmesh)
  {
    SameLive(m.vertices, n.vertices) && forall h :: IsLive(m.vertices, h) ==> Get(n.vertices, h) == Get(m.vertices, h)
  }

  /** The triangle pools of two meshes hold the same live triangles with the same values. */
  ghost predicate SameTriangles(m: Navmesh, n: Navmesh)
  {
    SameLive(m.triangles, n.triangles) && forall h :: IsLive(m.triangles, h) ==> Get(n.triangles, h) == Get(m.triangles, h)
  }

  /**
   * Spawning two values and reserving both: the two handles are new and distinct,
   * the pool keeps exactly its live values, and putting the two back restores the
   * pool with both handles.
   */
  lemma SpawnTwoRoundTrip<T>(p: Pool<T>, x: T, y: T)
    ensures var (p1, a) := Spawn(p, x);
      var (p2, b) := Spawn(p1, y);
      !IsLive(p, a) && !IsLive(p, b) && a != b
      && IsLive(p2, a) && Get(p2, a) == x && IsLive(p2, b) && Get(p2, b) == y
      && CanTakeAll(p2, [a, b])
      && var (p3, ts) := TakeAll(p2, [a, b]);
      SameLive(p, p3) && (forall h :: IsLive(p, h) ==> Get(p3, h) == Get(p, h))
      && CanPutAll(p3, ts) && PutAll(p3, ts) == (p2, [a, b])
      && [ts[0], ts[1]] == ts
  {
    var (p1, a) := Spawn(p, x);
    var (p2, b) := Spawn(p1, y);
    assert DistinctIndices([a, b]);
    TakeNewPair(p, p2, a, b);
  }

  /** Reserving two handles that are live in `q` but not in `p`, where `q` otherwise holds exactly `p`'s values, gives `p`'s live values back. */
  lemma TakeNewPair<T>(p: Pool<T>, q: Pool<T>, a: Handle, b: Handle)
    requires CanTakeAll(q, [a, b]) && !IsLive(p, a) && !IsLive(p, b)
    requires forall h :: IsLive(q, h) ==> h == a || h == b || IsLive(p, h)
    requires forall h :: IsLive(p, h) ==> IsLive(q, h) && Get(q, h) == Get(p, h)
    ensures var (p3, ts) := TakeAll(q, [a, b]);
      SameLive(p, p3) && (forall h :: IsLive(p, h) ==> Get(p3, h) == Get(p, h))
      && CanPutAll(p3, ts) && PutAll(p3, ts) == (q, [a, b])
      && [ts[0], ts[1]] == ts
  {
    TakeNewPairLive(p, q, a, b);
    TakePairPutPair(q, a, b);
    var (p3, ts) := TakeAll(q, [a, b]);
    assert [ts[0], ts[1]] == ts;
  }

  /** The live-value half of `TakeNewPair`. */
  lemma TakeNewPairLive<T>(p: Pool<T>, q: Pool<T>, a: Handle, b: Handle)
    requires CanTakeAll(q, [a, b]) && !IsLive(p, a) && !IsLive(p, b)
    requires forall h :: IsLive(q, h) ==> h == a || h == b || IsLive(p, h)
    requires forall h :: IsLive(p, h) ==> IsLive(q, h) && Get(q, h) == Get(p, h)
    ensures var p3 := TakeAll(q, [a, b]).0;
      SameLive(p, p3) && forall h :: IsLive(p, h) ==> Get(p3, h) == Get(p, h)
  {
    assert Indices([a, b]) == {a.index, b.index} by {
      assert forall h :: h in [a, b] <==> h == a || h == b;
    }
  }

  // ---------------------------------------------------------------- add edge

  /** Where an add-edge command is: the edge's two vertices, the handles it created, or their reservations. */
  datatype EdgeStage =
    | EdgeUndefined
    | EdgeNonExecuted(edge: (NavmeshVertex, NavmeshVertex))
    | EdgeExecuted(triangles: (Handle, Handle), vertices: (Handle, Handle))
    | EdgeReverted(
        reservedTriangles: ((Ticket, NavmeshTriangle), (Ticket, NavmeshTriangle)),
        reservedVertices: ((Ticket, NavmeshVertex), (Ticket, NavmeshVertex)))

  /** The fields of `AddNavmeshEdgeCommand`. */
  datatype AddNavmeshEdgeState = AddNavmeshEdgeState(
    navmesh: Handle,
    oppositeEdge: NavmeshEdge,
    stage: EdgeStage,
    select: bool,
    newSelection: Selection)

  function NewAddNavmeshEdge(navmesh: Handle, edge: (NavmeshVertex, NavmeshVertex), opposite: NavmeshEdge, select: bool): AddNavmeshEdgeState
  {
    AddNavmeshEdgeState(navmesh, opposite, EdgeNonExecuted(edge), select, NoSelection)
  }

  /** The two triangles joining the new edge `begin`-`end` to the opposite edge. */
  function EdgeTriangles(opposite: NavmeshEdge, begin: Handle, end: Handle): (r: (NavmeshTriangle, NavmeshTriangle))
    ensures TriangleVertices(r.0) == [opposite.begin, begin, opposite.end]
    ensures TriangleVertices(r.1) == [begin, end, opposite.end]
  {
    (NavmeshTriangle(opposite.begin, begin, opposite.end), NavmeshTriangle(begin, end, opposite.end))
  }

  /** The selection an add-edge command makes: the new edge alone. */
  function EdgeSelection(navmesh: Handle, begin: Handle, end: Handle): Selection
  {
    NavmeshEntities(NavmeshSelection(navmesh, [EdgeEntity(NavmeshEdge(begin, end))]))
  }

  /** With `select`, exchanges the scene's selection with the command's. */
  function SwapSelection(s: Scene, c: AddNavmeshEdgeState): (r: (Scene, AddNavmeshEdgeState))
    ensures c.select ==> r == (s.(selection := c.newSelection), c.(newSelection := s.selection))
    ensures !c.select ==> r == (s, c)
  {
    if c.select then (s.(selection := c.newSelection), c.(newSelection := s.selection)) else (s, c)
  }

  /** The mesh part of a first `execute`: spawns the two vertices, then the two triangles joining them to the opposite edge. */
  function SpawnEdge(m: Navmesh, opposite: NavmeshEdge, edge: (NavmeshVertex, NavmeshVertex)): (Navmesh, (Handle, Handle), (Handle, Handle))
  {
    var (vs1, begin) := Spawn(m.vertices, edge.0);
    var (vs2, end) := Spawn(vs1, edge.1);
    var (t0, t1) := EdgeTriangles(opposite, begin, end);
    var (ts1, ta) := Spawn(m.triangles, t0);
    var (ts2, tb) := Spawn(ts1, t1);
    (Navmesh(vs2, ts2), (ta, tb), (begin, end))
  }

  /** The mesh part of a later `execute`: the vertices, then the triangles, go back into their slots. */
  function PutEdgeBack(
    m: Navmesh,
    rt: ((Ticket, NavmeshTriangle), (Ticket, NavmeshTriangle)),
    rv: ((Ticket, NavmeshVertex), (Ticket, NavmeshVertex))): Option<(Navmesh, (Handle, Handle), (Handle, Handle))>
  {
    if !CanPutAll(m.vertices, [rv.0, rv.1]) || !CanPutAll(m.triangles, [rt.0, rt.1]) then None
    else
      var (vs, vh) := PutAll(m.vertices, [rv.0, rv.1]);
      var (ts, th) := PutAll(m.triangles, [rt.0, rt.1]);
      Some((Navmesh(vs, ts), (th[0], th[1]), (vh[0], vh[1])))
  }

  /** The mesh part of `revert`: reserves the two triangles, then the two vertices. */
  function ReserveEdge(m: Navmesh, triangles: (Handle, Handle), vertices: (Handle, Handle))
    : Option<(Navmesh, ((Ticket, NavmeshTriangle), (Ticket, NavmeshTriangle)), ((Ticket, NavmeshVertex), (Ticket, NavmeshVertex)))>
  {
    var (ta, tb) := triangles;
    var (va, vb) := vertices;
    if !CanTakeAll(m.triangles, [ta, tb]) || !CanTakeAll(m.vertices, [va, vb]) then None
    else
      var (ts, rt) := TakeAll(m.triangles, [ta, tb]);
      var (vs, rv) := TakeAll(m.vertices, [va, vb]);
      Some((Navmesh(vs, ts), (rt[0], rt[1]), (rv[0], rv[1])))
  }

  /** Putting back what `ReserveEdge` reserved gives back the mesh and the same handles. */
  lemma ReserveEdgePutBack(m: Navmesh, triangles: (Handle, Handle), vertices: (Handle, Handle))
    requires ReserveEdge(m, triangles, vertices).Some?
    ensures var (m1, rt, rv) := ReserveEdge(m, triangles, vertices).value;
      PutEdgeBack(m1, rt, rv) == Some((m, triangles, vertices))
  {
    TakePairPutPair(m.triangles, triangles.0, triangles.1);
    TakePairPutPair(m.vertices, vertices.0, vertices.1);
  }

  /**
   * `execute`: the first time, spawns the two vertices and the two triangles
   * joining them to the opposite edge and makes the new edge the command's
   * selection; after a revert, puts the four back (vertices first). Then, with
   * `select`, swaps the selection.
   */
  function AddNavmeshEdgeExecute(s: Scene, c: AddNavmeshEdgeState): (r: Option<(Scene, AddNavmeshEdgeState)>)
    ensures r.Some? ==> var (s1, c1) := r.value;
      IsLive(s.navmeshes, c.navmesh) && c1.stage.EdgeExecuted?
      && s1 == s.(navmeshes := s1.navmeshes, selection := s1.selection)
      && SameLive(s.navmeshes, s1.navmeshes)
      && (forall x :: IsLive(s.navmeshes, x) && x != c.navmesh ==> Get(s1.navmeshes, x) == Get(s.navmeshes, x))
      && c1 == c.(stage := c1.stage, newSelection := c1.newSelection)
      && (!c.select ==> s1.selection == s.selection)
      && (c.select ==> c1.newSelection == s.selection)
  {
    if !IsLive(s.navmeshes, c.navmesh) then None
    else
      match c.stage
      case EdgeNonExecuted(edge) =>
        var (m1, triangles, vertices) := SpawnEdge(NavmeshAt(s, c.navmesh), c.oppositeEdge, edge);
        var c1 := c.(stage := EdgeExecuted(triangles, vertices), newSelection := EdgeSelection(c.navmesh, vertices.0, vertices.1));
        Some(SwapSelection(WithNavmesh(s, c.navmesh, m1), c1))
      case EdgeReverted(rt, rv) =>
        (match PutEdgeBack(NavmeshAt(s, c.navmesh), rt, rv)
         case None => None
         case Some((m1, triangles, vertices)) =>
           Some(SwapSelection(WithNavmesh(s, c.navmesh, m1), c.(stage := EdgeExecuted(triangles, vertices)))))
      case _ => None
  }

  /**
   * `revert`: with `select`, swaps the selection back; then reserves the two
   * triangles and the two vertices the command created.
   */
  function AddNavmeshEdgeRevert(s: Scene, c: AddNavmeshEdgeState): (r: Option<(Scene, AddNavmeshEdgeState)>)
    ensures r.Some? ==> var (s1, c1) := r.value;
      IsLive(s.navmeshes, c.navmesh) && c.stage.EdgeExecuted? && c1.stage.EdgeReverted?
      && s1 == s.(navmeshes := s1.navmeshes, selection := s1.selection)
      && SameLive(s.navmeshes, s1.navmeshes)
      && (forall x :: IsLive(s.navmeshes, x) && x != c.navmesh ==> Get(s1.navmeshes, x) == Get(s.navmeshes, x))
      && c1 == c.(stage := c1.stage, newSelection := c1.newSelection)
      && (!c.select ==> s1.selection == s.selection)
      && (c.select ==> s1.selection == c.newSelection && c1.newSelection == s.selection)
  {
    var (s0, c0) := SwapSelection(s, c);
    if !IsLive(s0.navmeshes, c0.navmesh) then None
    else
      match c0.stage
      case EdgeExecuted(triangles, vertices) =>
        (match ReserveEdge(NavmeshAt(s0, c0.navmesh), triangles, vertices)
         case None => None
         case Some((m1, rt, rv)) => Some((WithNavmesh(s0, c0.navmesh, m1), c0.(stage := EdgeReverted(rt, rv)))))
      case _ => None
  }

  /**
   * `finalize`: the command's state becomes undefined; a reverted command whose
   * navigation mesh is still alive forgets its four tickets.
   */
  function AddNavmeshEdgeFinalize(s: Scene, c: AddNavmeshEdgeState): (r: Option<(Scene, AddNavmeshEdgeState)>)
    ensures r.Some? ==> var (s1, c1) := r.value;
      c1 == c.(stage := EdgeUndefined)
      && s1 == s.(navmeshes := s1.navmeshes) && SameLive(s.navmeshes, s1.navmeshes)
      && (forall x :: IsLive(s.navmeshes, x) && x != c.navmesh ==> Get(s1.navmeshes, x) == Get(s.navmeshes, x))
      && (IsLive(s.navmeshes, c.navmesh) ==>
            SameVertices(NavmeshAt(s, c.navmesh), Get(s1.navmeshes, c.navmesh))
            && SameTriangles(NavmeshAt(s, c.navmesh), Get(s1.navmeshes, c.navmesh)))
    ensures !c.stage.EdgeReverted? || !IsLive(s.navmeshes, c.navmesh) ==> r == Some((s, c.(stage := EdgeUndefined)))
  {
    var c1 := c.(stage := EdgeUndefined);
    match c.stage
    case EdgeReverted((rt0, rt1), (rv0, rv1)) =>
      if !IsLive(s.navmeshes, c.navmesh) then Some((s, c1))
      else
        var m := NavmeshAt(s, c.navmesh);
        if !CanPutAll(m.vertices, [rv0, rv1]) || !CanPutAll(m.triangles, [rt0, rt1]) then None
        else
          var vs := ForgetAll(m.vertices, TicketsOf([rv0, rv1]));
          var ts := ForgetAll(m.triangles, TicketsOf([rt0, rt1]));
          Some((WithNavmesh(s, c.navmesh, Navmesh(vs, ts)), c1))
    case _ => Some((s, c1))
  }

  /**
   * The mesh side of a first add-edge: the two vertices and the two triangles
   * are new, distinct, hold the edge's values and the triangles joining it to the
   * opposite edge, and reserving the four gives back the live vertices and
   * triangles the mesh had.
   */
  lemma SpawnEdgeFacts(m: Navmesh, opposite: NavmeshEdge, edge: (NavmeshVertex, NavmeshVertex))
    ensures var (m1, (ta, tb), (begin, end)) := SpawnEdge(m, opposite, edge);
      !IsLive(m.vertices, begin) && !IsLive(m.vertices, end) && begin != end
      && IsLive(m1.vertices, begin) && Get(m1.vertices, begin) == edge.0
      && IsLive(m1.vertices, end) && Get(m1.vertices, end) == edge.1
      && !IsLive(m.triangles, ta) && !IsLive(m.triangles, tb) && ta != tb
      && IsLive(m1.triangles, ta) && IsLive(m1.triangles, tb)
      && (Get(m1.triangles, ta), Get(m1.triangles, tb)) == EdgeTriangles(opposite, begin, end)
      && ReserveEdge(m1, (ta, tb), (begin, end)).Some?
      && var m2 := ReserveEdge(m1, (ta, tb), (begin, end)).value.0;
      SameVertices(m, m2) && SameTriangles(m, m2)
  {
    SpawnTwoRoundTrip(m.vertices, edge.0, edge.1);
    var (v1, begin) := Spawn(m.vertices, edge.0);
    var (v2, end) := Spawn(v1, edge.1);
    var (t0, t1) := EdgeTriangles(opposite, begin, end);
    SpawnTwoRoundTrip(m.triangles, t0, t1);
  }

  /** A first `execute` on a live mesh: the mesh becomes `SpawnEdge`'s, the new edge the command's selection, then the selection swap. */
  lemma AddNavmeshEdgeExecuteFresh(s: Scene, navmesh: Handle, edge: (NavmeshVertex, NavmeshVertex), opposite: NavmeshEdge, select: bool)
    requires IsLive(s.navmeshes, navmesh)
    ensures var c := NewAddNavmeshEdge(navmesh, edge, opposite, select);
      var (m1, triangles, vertices) := SpawnEdge(NavmeshAt(s, navmesh), opposite, edge);
      AddNavmeshEdgeExecute(s, c) == Some(SwapSelection(WithNavmesh(s, navmesh, m1),
        c.(stage := EdgeExecuted(triangles, vertices), newSelection := EdgeSelection(navmesh, vertices.0, vertices.1))))
  {
  }

  /**
   * A fresh add-edge command on a live navigation mesh creates two new vertices
   * with the edge's values and the two triangles joining them to the opposite
   * edge, and selects the new edge when asked to.
   */
  lemma AddNavmeshEdgeCreates(s: Scene, navmesh: Handle, edge: (NavmeshVertex, NavmeshVertex), opposite: NavmeshEdge, select: bool)
    requires IsLive(s.navmeshes, navmesh)
    ensures AddNavmeshEdgeExecute(s, NewAddNavmeshEdge(navmesh, edge, opposite, select)).Some?
    ensures var (s1, c1) := AddNavmeshEdgeExecute(s, NewAddNavmeshEdge(navmesh, edge, opposite, select)).value;
      var m := NavmeshAt(s, navmesh);
      var m1 := NavmeshAt(s1, navmesh);
      var (begin, end) := c1.stage.vertices;
      var (ta, tb) := c1.stage.triangles;
      !IsLive(m.vertices, begin) && !IsLive(m.vertices, end) && begin != end
      && IsLive(m1.vertices, begin) && Get(m1.vertices, begin) == edge.0
      && IsLive(m1.vertices, end) && Get(m1.vertices, end) == edge.1
      && !IsLive(m.triangles, ta) && !IsLive(m.triangles, tb) && ta != tb
      && IsLive(m1.triangles, ta) && IsLive(m1.triangles, tb)
      && (Get(m1.triangles, ta), Get(m1.triangles, tb)) == EdgeTriangles(opposite, begin, end)
      && (select ==> s1.selection == EdgeSelection(navmesh, begin, end))
  {
    SpawnEdgeFacts(NavmeshAt(s, navmesh), opposite, edge);
    AddNavmeshEdgeExecuteFresh(s, navmesh, edge, opposite, select);
  }

  /** Swapping the selection twice gives back the scene and the command. */
  lemma SwapSelectionTwice(s: Scene, c: AddNavmeshEdgeState)
    ensures var (s1, c1) := SwapSelection(s, c); SwapSelection(s1, c1) == (s, c)
  {
  }

  /** What a successful `revert` leaves: the selection swapped back, then the mesh with the four entities reserved. */
  lemma AddNavmeshEdgeRevertIs(s1: Scene, c1: AddNavmeshEdgeState)
    requires AddNavmeshEdgeRevert(s1, c1).Some?
    ensures var (s0, c0) := SwapSelection(s1, c1);
      IsLive(s0.navmeshes, c1.navmesh) && c1.stage.EdgeExecuted?
      && ReserveEdge(NavmeshAt(s0, c1.navmesh), c1.stage.triangles, c1.stage.vertices).Some?
      && var (m1, rt, rv) := ReserveEdge(NavmeshAt(s0, c1.navmesh), c1.stage.triangles, c1.stage.vertices).value;
      AddNavmeshEdgeRevert(s1, c1) == Some((WithNavmesh(s0, c1.navmesh, m1), c0.(stage := EdgeReverted(rt, rv))))
  {
  }

  /** A later `execute` on a live mesh whose reservations can go back. */
  lemma AddNavmeshEdgeExecuteReverted(s: Scene, c: AddNavmeshEdgeState, m: Navmesh, triangles: (Handle, Handle), vertices: (Handle, Handle))
    requires IsLive(s.navmeshes, c.navmesh) && c.stage.EdgeReverted?
    requires PutEdgeBack(NavmeshAt(s, c.navmesh), c.stage.reservedTriangles, c.stage.reservedVertices) == Some((m, triangles, vertices))
    ensures AddNavmeshEdgeExecute(s, c) == Some(SwapSelection(WithNavmesh(s, c.navmesh, m), c.(stage := EdgeExecuted(triangles, vertices))))
  {
  }

  /** Redo after any successful undo of an add-edge command restores the scene and the command exactly. */
  lemma AddNavmeshEdgeRedo(s1: Scene, c1: AddNavmeshEdgeState)
    requires AddNavmeshEdgeRevert(s1, c1).Some?
    ensures var (s2, c2) := AddNavmeshEdgeRevert(s1, c1).value;
      AddNavmeshEdgeExecute(s2, c2) == Some((s1, c1))
  {
    AddNavmeshEdgeRevertIs(s1, c1);
    var (s0, c0) := SwapSelection(s1, c1);
    SwapSelectionTwice(s1, c1);
    var navmesh := c1.navmesh;
    var m := NavmeshAt(s0, navmesh);
    var triangles, vertices := c1.stage.triangles, c1.stage.vertices;
    var (m1, rt, rv) := ReserveEdge(m, triangles, vertices).value;
    var s2 := WithNavmesh(s0, navmesh, m1);
    var c2 := c0.(stage := EdgeReverted(rt, rv));
    ReserveEdgePutBack(m, triangles, vertices);
    AddNavmeshEdgeExecuteReverted(s2, c2, m, triangles, vertices);
    WithNavmeshRestore(s0, navmesh, m1);
    assert c2.(stage := EdgeExecuted(triangles, vertices)) == c0;
  }

  /**
   * Undo of a fresh add-edge command leaves the mesh with the vertices and
   * triangles it had and restores the selection; redo repeats the first execution
   * exactly.
   */
  lemma AddNavmeshEdgeUndo(s: Scene, navmesh: Handle, edge: (NavmeshVertex, NavmeshVertex), opposite: NavmeshEdge, select: bool)
    requires IsLive(s.navmeshes, navmesh)
    ensures AddNavmeshEdgeExecute(s, NewAddNavmeshEdge(navmesh, edge, opposite, select)).Some?
    ensures var (s1, c1) := AddNavmeshEdgeExecute(s, NewAddNavmeshEdge(navmesh, edge, opposite, select)).value;
      AddNavmeshEdgeRevert(s1, c1).Some?
      && var (s2, c2) := AddNavmeshEdgeRevert(s1, c1).value;
      s2.selection == s.selection
      && s2 == WithNavmesh(s, navmesh, NavmeshAt(s2, navmesh))
      && SameVertices(NavmeshAt(s, navmesh), NavmeshAt(s2, navmesh))
      && SameTriangles(NavmeshAt(s, navmesh), NavmeshAt(s2, navmesh))
      && AddNavmeshEdgeExecute(s2, c2) == Some((s1, c1))
  {
    var c := NewAddNavmeshEdge(navmesh, edge, opposite, select);
    var m := NavmeshAt(s, navmesh);
    SpawnEdgeFacts(m, opposite, edge);
    AddNavmeshEdgeExecuteFresh(s, navmesh, edge, opposite, select);
    var (m1, triangles, vertices) := SpawnEdge(m, opposite, edge);
    var c1e := c.(stage := EdgeExecuted(triangles, vertices), newSelection := EdgeSelection(navmesh, vertices.0, vertices.1));
    var sw := WithNavmesh(s, navmesh, m1);
    var (s1, c1) := SwapSelection(sw, c1e);
    SwapSelectionTwice(sw, c1e);
    AddNavmeshEdgeRevertIs(s1, c1);
    var m2 := ReserveEdge(m1, triangles, vertices).value.0;
    SetTwice(s.navmeshes, navmesh, m1, m2);
    AddNavmeshEdgeRedo(s1, c1);
  }

  // ---------------------------------------------------------------- connect edges

  /** Where a connect-edges command is: the two edges, the triangles it created, or their reservations. */
  datatype ConnectStage =
    | ConnectUndefined
    | ConnectNonExecuted(edges: (NavmeshEdge, NavmeshEdge))
    | ConnectExecuted(triangles: (Handle, Handle))
    | ConnectReverted(reservedTriangles: ((Ticket, NavmeshTriangle), (Ticket, NavmeshTriangle)))

  /** The fields of `ConnectNavmeshEdgesCommand`. */
  datatype ConnectNavmeshEdgesState = ConnectNavmeshEdgesState(navmesh: Handle, stage: ConnectStage)

  /** The two triangles spanning the quadrilateral between two edges. */
  function ConnectingTriangles(e0: NavmeshEdge, e1: NavmeshEdge): (r: (NavmeshTriangle, NavmeshTriangle))
    ensures TriangleVertices(r.0) == [e0.begin, e0.end, e1.begin]
    ensures TriangleVertices(r.1) == [e1.begin, e1.end, e0.begin]
  {
    (NavmeshTriangle(e0.begin, e0.end, e1.begin), NavmeshTriangle(e1.begin, e1.end, e0.begin))
  }

  /** `execute`: spawns the two connecting triangles the first time, puts them back after a revert. */
  function ConnectNavmeshEdgesExecute(s: Scene, c: ConnectNavmeshEdgesState): (r: Option<(Scene, ConnectNavmeshEdgesState)>)
    ensures r.Some? ==> IsLive(s.navmeshes, c.navmesh) && SameLive(s.navmeshes, r.value.0.navmeshes)
    ensures r.Some? ==> var (s1, c1) := r.value;
      IsLive(s.navmeshes, c.navmesh) && c1.navmesh == c.navmesh && c1.stage.ConnectExecuted?
      && s1 == WithNavmesh(s, c.navmesh, NavmeshAt(s1, c.navmesh))
      && NavmeshAt(s1, c.navmesh).vertices == NavmeshAt(s, c.navmesh).vertices
  {
    if !IsLive(s.navmeshes, c.navmesh) then None
    else
      var m := NavmeshAt(s, c.navmesh);
      match c.stage
      case ConnectNonExecuted((e0, e1)) =>
        var (t0, t1) := ConnectingTriangles(e0, e1);
        var (ts1, ta) := Spawn(m.triangles, t0);
        var (ts2, tb) := Spawn(ts1, t1);
        Some((WithNavmesh(s, c.navmesh, m.(triangles := ts2)), c.(stage := ConnectExecuted((ta, tb)))))
      case ConnectReverted((rt0, rt1)) =>
        if !CanPutAll(m.triangles, [rt0, rt1]) then None
        else
          var (ts, th) := PutAll(m.triangles, [rt0, rt1]);
          Some((WithNavmesh(s, c.navmesh, m.(triangles := ts)), c.(stage := ConnectExecuted((th[0], th[1])))))
      case _ => None
  }

  /** `revert`: reserves the two triangles the command created. */
  function ConnectNavmeshEdgesRevert(s: Scene, c: ConnectNavmeshEdgesState): (r: Option<(Scene, ConnectNavmeshEdgesState)>)
    ensures r.Some? ==> IsLive(s.navmeshes, c.navmesh) && SameLive(s.navmeshes, r.value.0.navmeshes)
    ensures r.Some? <==>
      IsLive(s.navmeshes, c.navmesh) && c.stage.ConnectExecuted?
      && CanTakeAll(NavmeshAt(s, c.navmesh).triangles, [c.stage.triangles.0, c.stage.triangles.1])
    ensures r.Some? ==> var (s1, c1) := r.value;
      var m := NavmeshAt(s, c.navmesh);
      var m1 := NavmeshAt(s1, c.navmesh);
      c1.navmesh == c.navmesh && c1.stage.ConnectReverted?
      && s1 == WithNavmesh(s, c.navmesh, m1) && m1.vertices == m.vertices
      && (forall h :: IsLive(m1.triangles, h) <==>
            IsLive(m.triangles, h) && h != c.stage.triangles.0 && h != c.stage.triangles.1)
      && (forall h :: IsLive(m1.triangles, h) ==> Get(m1.triangles, h) == Get(m.triangles, h))
  {
    if !IsLive(s.navmeshes, c.navmesh) then None
    else
      var m := NavmeshAt(s, c.navmesh);
      match c.stage
      case ConnectExecuted((ta, tb)) =>
        if !CanTakeAll(m.triangles, [ta, tb]) then None
        else
          var (ts, rt) := TakeAll(m.triangles, [ta, tb]);
          assert forall h :: IsLive(m.triangles, h) && h.index in Indices([ta, tb]) ==> h == ta || h == tb;
          Some((WithNavmesh(s, c.navmesh, m.(triangles := ts)), c.(stage := ConnectReverted((rt[0], rt[1])))))
      case _ => None
  }

  /**
   * `finalize`: indexes the navigation mesh whatever the state (a dead mesh
   * panics); a reverted command forgets its two tickets. The state becomes undefined.
   */
  function ConnectNavmeshEdgesFinalize(s: Scene, c: ConnectNavmeshEdgesState): (r: Option<(Scene, ConnectNavmeshEdgesState)>)
    ensures r.Some? ==> IsLive(s.navmeshes, c.navmesh) && SameLive(s.navmeshes, r.value.0.navmeshes)
    ensures !IsLive(s.navmeshes, c.navmesh) ==> r.None?
    ensures IsLive(s.navmeshes, c.navmesh) && !c.stage.ConnectReverted? ==> r == Some((s, c.(stage := ConnectUndefined)))
    ensures r.Some? ==> var (s1, c1) := r.value;
      c1 == c.(stage := ConnectUndefined)
      && s1 == WithNavmesh(s, c.navmesh, NavmeshAt(s1, c.navmesh))
      && SameVertices(NavmeshAt(s, c.navmesh), NavmeshAt(s1, c.navmesh))
      && SameTriangles(NavmeshAt(s, c.navmesh), NavmeshAt(s1, c.navmesh))
  {
    if !IsLive(s.navmeshes, c.navmesh) then None
    else
      var m := NavmeshAt(s, c.navmesh);
      var c1 := c.(stage := ConnectUndefined);
      match c.stage
      case ConnectReverted((rt0, rt1)) =>
        if !CanPutAll(m.triangles, [rt0, rt1]) then None
        else Some((WithNavmesh(s, c.navmesh, m.(triangles := ForgetAll(m.triangles, TicketsOf([rt0, rt1])))), c1))
      case _ =>
        SetSame(s.navmeshes, c.navmesh);
        Some((s, c1))
  }

  /** A first `execute` on a live mesh spawns the two connecting triangles, in order. */
  lemma ConnectNavmeshEdgesExecuteFresh(s: Scene, navmesh: Handle, e0: NavmeshEdge, e1: NavmeshEdge)
    requires IsLive(s.navmeshes, navmesh)
    ensures var m := NavmeshAt(s, navmesh);
      var (t0, t1) := ConnectingTriangles(e0, e1);
      var (p1, ta) := Spawn(m.triangles, t0);
      var (p2, tb) := Spawn(p1, t1);
      ConnectNavmeshEdgesExecute(s, ConnectNavmeshEdgesState(navmesh, ConnectNonExecuted((e0, e1))))
        == Some((WithNavmesh(s, navmesh, m.(triangles := p2)), ConnectNavmeshEdgesState(navmesh, ConnectExecuted((ta, tb)))))
  {
  }

  /** A `revert` whose two triangles can be taken reserves them, in order. */
  lemma ConnectNavmeshEdgesRevertIs(s: Scene, navmesh: Handle, ta: Handle, tb: Handle)
    requires IsLive(s.navmeshes, navmesh) && CanTakeAll(NavmeshAt(s, navmesh).triangles, [ta, tb])
    ensures var m := NavmeshAt(s, navmesh);
      var (p, rt) := TakeAll(m.triangles, [ta, tb]);
      ConnectNavmeshEdgesRevert(s, ConnectNavmeshEdgesState(navmesh, ConnectExecuted((ta, tb))))
        == Some((WithNavmesh(s, navmesh, m.(triangles := p)), ConnectNavmeshEdgesState(navmesh, ConnectReverted((rt[0], rt[1])))))
  {
  }

  /** A later `execute` whose two reservations can go back puts them back, in order. */
  lemma ConnectNavmeshEdgesExecuteReverted(s: Scene, navmesh: Handle, rt0: (Ticket, NavmeshTriangle), rt1: (Ticket, NavmeshTriangle))
    requires IsLive(s.navmeshes, navmesh) && CanPutAll(NavmeshAt(s, navmesh).triangles, [rt0, rt1])
    ensures var m := NavmeshAt(s, navmesh);
      var (p, th) := PutAll(m.triangles, [rt0, rt1]);
      ConnectNavmeshEdgesExecute(s, ConnectNavmeshEdgesState(navmesh, ConnectReverted((rt0, rt1))))
        == Some((WithNavmesh(s, navmesh, m.(triangles := p)), ConnectNavmeshEdgesState(navmesh, ConnectExecuted((th[0], th[1])))))
  {
  }

  /**
   * A fresh connect-edges command on a live navigation mesh creates the two
   * triangles spanning the edges; undo restores the mesh's live triangles and redo
   * repeats the first execution exactly.
   */
  lemma ConnectNavmeshEdgesUndo(s: Scene, navmesh: Handle, e0: NavmeshEdge, e1: NavmeshEdge)
    requires IsLive(s.navmeshes, navmesh)
    ensures ConnectNavmeshEdgesExecute(s, ConnectNavmeshEdgesState(navmesh, ConnectNonExecuted((e0, e1)))).Some?
    ensures var (s1, c1) := ConnectNavmeshEdgesExecute(s, ConnectNavmeshEdgesState(navmesh, ConnectNonExecuted((e0, e1)))).value;
      var m := NavmeshAt(s, navmesh);
      var m1 := NavmeshAt(s1, navmesh);
      var (ta, tb) := c1.stage.triangles;
      !IsLive(m.triangles, ta) && !IsLive(m.triangles, tb) && ta != tb
      && IsLive(m1.triangles, ta) && IsLive(m1.triangles, tb)
      && (Get(m1.triangles, ta), Get(m1.triangles, tb)) == ConnectingTriangles(e0, e1)
      && ConnectNavmeshEdgesRevert(s1, c1).Some?
      && var (s2, c2) := ConnectNavmeshEdgesRevert(s1, c1).value;
      s2 == WithNavmesh(s, navmesh, NavmeshAt(s2, navmesh))
      && NavmeshAt(s2, navmesh).vertices == m.vertices && SameTriangles(m, NavmeshAt(s2, navmesh))
      && ConnectNavmeshEdgesExecute(s2, c2) == Some((s1, c1))
  {
    var m := NavmeshAt(s, navmesh);
    var (t0, t1) := ConnectingTriangles(e0, e1);
    SpawnTwoRoundTrip(m.triangles, t0, t1);
    ConnectNavmeshEdgesExecuteFresh(s, navmesh, e0, e1);
    var (p1, ta) := Spawn(m.triangles, t0);
    var (p2, tb) := Spawn(p1, t1);
    var (p3, rt) := TakeAll(p2, [ta, tb]);
    var s1 := WithNavmesh(s, navmesh, m.(triangles := p2));
    ConnectNavmeshEdgesRevertIs(s1, navmesh, ta, tb);
    var s2 := WithNavmesh(s1, navmesh, m.(triangles := p3));
    SetTwice(s.navmeshes, navmesh, m.(triangles := p2), m.(triangles := p3));
    ConnectNavmeshEdgesExecuteReverted(s2, navmesh, rt[0], rt[1]);
    SetTwice(s.navmeshes, navmesh, m.(triangles := p3), m.(triangles := p2));
  }

  // ---------------------------------------------------------------- delete vertex

  /** Where a delete-vertex command is: the vertex, or its reservation and those of the triangles using it. */
  datatype VertexStage =
    | VertexUndefined
    | VertexNonExecuted(vertex: Handle)
    | VertexExecuted(reservedVertex: (Ticket, NavmeshVertex), reservedTriangles: seq<(Ticket, NavmeshTriangle)>)
    | VertexReverted(vertex: Handle)

  /** The fields of `DeleteNavmeshVertexCommand`. */
  datatype DeleteNavmeshVertexState = DeleteNavmeshVertexState(navmesh: Handle, stage: VertexStage)

  /** The triangles of `hs`, in order, that use vertex `v`. */
  function TrianglesUsingFrom(p: Pool<NavmeshTriangle>, hs: seq<Handle>, v: Handle): (r: seq<Handle>)
    requires forall h :: h in hs ==> IsLive(p, h)
    ensures forall h :: h in r <==> h in hs && v in TriangleVertices(Get(p, h))
  {
    if hs == [] then []
    else
      var rest := TrianglesUsingFrom(p, hs[1..], v);
      assert forall h :: h in hs ==> h == hs[0] || h in hs[1..];
      if v in TriangleVertices(Get(p, hs[0])) then [hs[0]] + rest else rest
  }

  /** Selecting triangles keeps the slots pairwise distinct. */
  lemma {:induction false} TrianglesUsingFromDistinct(p: Pool<NavmeshTriangle>, hs: seq<Handle>, v: Handle)
    requires forall h :: h in hs ==> IsLive(p, h)
    requires DistinctIndices(hs)
    ensures DistinctIndices(TrianglesUsingFrom(p, hs, v))
  {
    if hs != [] {
      DistinctTail(hs);
      TrianglesUsingFromDistinct(p, hs[1..], v);
      var rest := TrianglesUsingFrom(p, hs[1..], v);
      if v in TriangleVertices(Get(p, hs[0])) {
        DistinctCons(hs[0], rest);
      }
    }
  }

  /** The live triangles of a mesh that use vertex `v`, in the order the pool is iterated. */
  function TrianglesUsing(m: Navmesh, v: Handle): (r: seq<Handle>)
    ensures CanTakeAll(m.triangles, r)
    ensures forall h :: h in r <==> IsLive(m.triangles, h) && v in TriangleVertices(Get(m.triangles, h))
  {
    LiveHandlesExact(m.triangles);
    TrianglesUsingFromDistinct(m.triangles, LiveHandles(m.triangles), v);
    TrianglesUsingFrom(m.triangles, LiveHandles(m.triangles), v)
  }

  /**
   * `execute`: collects the triangles that use the vertex, then reserves the
   * vertex and each of those triangles. A dead vertex panics.
   */
  function DeleteNavmeshVertexExecute(s: Scene, c: DeleteNavmeshVertexState): (r: Option<(Scene, DeleteNavmeshVertexState)>)
    ensures r.Some? ==> IsLive(s.navmeshes, c.navmesh) && SameLive(s.navmeshes, r.value.0.navmeshes)
    ensures r.Some? <==>
      IsLive(s.navmeshes, c.navmesh) && (c.stage.VertexNonExecuted? || c.stage.VertexReverted?)
      && IsLive(NavmeshAt(s, c.navmesh).vertices, c.stage.vertex)
    ensures r.Some? ==> var (s1, c1) := r.value;
      var v := c.stage.vertex;
      var m := NavmeshAt(s, c.navmesh);
      var m1 := NavmeshAt(s1, c.navmesh);
      s1 == WithNavmesh(s, c.navmesh, m1) && c1.navmesh == c.navmesh && c1.stage.VertexExecuted?
      && (forall h :: IsLive(m1.vertices, h) <==> IsLive(m.vertices, h) && h != v)
      && (forall h :: IsLive(m1.vertices, h) ==> Get(m1.vertices, h) == Get(m.vertices, h))
      && (forall h :: IsLive(m1.triangles, h) <==>
            IsLive(m.triangles, h) && v !in TriangleVertices(Get(m.triangles, h)))
      && (forall h :: IsLive(m1.triangles, h) ==> Get(m1.triangles, h) == Get(m.triangles, h))
  {
    if !IsLive(s.navmeshes, c.navmesh) then None
    else if !(c.stage.VertexNonExecuted? || c.stage.VertexReverted?) then None
    else
      var m := NavmeshAt(s, c.navmesh);
      var v := c.stage.vertex;
      var ts := TrianglesUsing(m, v);
      if !IsLive(m.vertices, v) then None
      else
        var (vs, vt, vv) := TakeReserve(m.vertices, v);
        var (tp, rt) := TakeAll(m.triangles, ts);
        assert forall h :: IsLive(m.triangles, h) ==> (h.index in Indices(ts) <==> h in ts);
        Some((WithNavmesh(s, c.navmesh, Navmesh(vs, tp)), c.(stage := VertexExecuted((vt, vv), rt))))
  }

  /** `revert`: puts the vertex back, then every triangle, and remembers the vertex's handle. */
  function DeleteNavmeshVertexRevert(s: Scene, c: DeleteNavmeshVertexState): (r: Option<(Scene, DeleteNavmeshVertexState)>)
    ensures r.Some? ==> IsLive(s.navmeshes, c.navmesh) && SameLive(s.navmeshes, r.value.0.navmeshes)
    ensures r.Some? <==>
      IsLive(s.navmeshes, c.navmesh) && c.stage.VertexExecuted?
      && IsReserved(NavmeshAt(s, c.navmesh).vertices, c.stage.reservedVertex.0)
      && CanPutAll(NavmeshAt(s, c.navmesh).triangles, c.stage.reservedTriangles)
    ensures r.Some? ==> var (s1, c1) := r.value;
      var m := NavmeshAt(s, c.navmesh);
      var m1 := NavmeshAt(s1, c.navmesh);
      var (vt, vv) := c.stage.reservedVertex;
      s1 == WithNavmesh(s, c.navmesh, m1)
      && c1 == c.(stage := VertexReverted(TicketHandle(m.vertices, vt)))
      && IsLive(m1.vertices, c1.stage.vertex) && Get(m1.vertices, c1.stage.vertex) == vv
      && (forall h :: IsLive(m1.vertices, h) <==> IsLive(m.vertices, h) || h == c1.stage.vertex)
  {
    if !IsLive(s.navmeshes, c.navmesh) then None
    else
      var m := NavmeshAt(s, c.navmesh);
      match c.stage
      case VertexExecuted((vt, vv), rt) =>
        if !IsReserved(m.vertices, vt) || !CanPutAll(m.triangles, rt) then None
        else
          var (vs, vh) := PutBack(m.vertices, vt, vv);
          var (tp, _) := PutAll(m.triangles, rt);
          Some((WithNavmesh(s, c.navmesh, Navmesh(vs, tp)), c.(stage := VertexReverted(vh))))
      case _ => None
  }

  /**
   * `finalize`: the state becomes undefined; an executed command whose navigation
   * mesh is still alive forgets the vertex's and the triangles' tickets.
   */
  function DeleteNavmeshVertexFinalize(s: Scene, c: DeleteNavmeshVertexState): (r: Option<(Scene, DeleteNavmeshVertexState)>)
    ensures !c.stage.VertexExecuted? || !IsLive(s.navmeshes, c.navmesh) ==> r == Some((s, c.(stage := VertexUndefined)))
    ensures r.Some? ==> var (s1, c1) := r.value;
      c1 == c.(stage := VertexUndefined)
      && s1 == s.(navmeshes := s1.navmeshes) && SameLive(s.navmeshes, s1.navmeshes)
      && (forall x :: IsLive(s.navmeshes, x) && x != c.navmesh ==> Get(s1.navmeshes, x) == Get(s.navmeshes, x))
      && (IsLive(s.navmeshes, c.navmesh) ==>
            SameVertices(NavmeshAt(s, c.navmesh), Get(s1.navmeshes, c.navmesh))
            && SameTriangles(NavmeshAt(s, c.navmesh), Get(s1.navmeshes, c.navmesh)))
  {
    var c1 := c.(stage := VertexUndefined);
    match c.stage
    case VertexExecuted((vt, _), rt) =>
      if !IsLive(s.navmeshes, c.navmesh) then Some((s, c1))
      else
        var m := NavmeshAt(s, c.navmesh);
        if !IsReserved(m.vertices, vt) || !CanPutAll(m.triangles, rt) then None
        else
          var vs := ForgetTicket(m.vertices, vt);
          var tp := ForgetAll(m.triangles, TicketsOf(rt));
          Some((WithNavmesh(s, c.navmesh, Navmesh(vs, tp)), c1))
    case _ => Some((s, c1))
  }

  /** An `execute` on a live vertex reserves it and the triangles using it; a fresh and a reverted command do the same. */
  lemma DeleteNavmeshVertexExecuteIs(s: Scene, c: DeleteNavmeshVertexState)
    requires IsLive(s.navmeshes, c.navmesh) && (c.stage.VertexNonExecuted? || c.stage.VertexReverted?)
    requires IsLive(NavmeshAt(s, c.navmesh).vertices, c.stage.vertex)
    ensures var m := NavmeshAt(s, c.navmesh);
      var (vs, vt, vv) := TakeReserve(m.vertices, c.stage.vertex);
      var (tp, rt) := TakeAll(m.triangles, TrianglesUsing(m, c.stage.vertex));
      DeleteNavmeshVertexExecute(s, c)
        == Some((WithNavmesh(s, c.navmesh, Navmesh(vs, tp)), DeleteNavmeshVertexState(c.navmesh, VertexExecuted((vt, vv), rt))))
  {
  }

  /** A `revert` whose reservations can go back puts the vertex, then the triangles, back. */
  lemma DeleteNavmeshVertexRevertIs(s: Scene, navmesh: Handle, vt: Ticket, vv: NavmeshVertex, rt: seq<(Ticket, NavmeshTriangle)>)
    requires IsLive(s.navmeshes, navmesh)
    requires IsReserved(NavmeshAt(s, navmesh).vertices, vt) && CanPutAll(NavmeshAt(s, navmesh).triangles, rt)
    ensures var m := NavmeshAt(s, navmesh);
      var (vs, vh) := PutBack(m.vertices, vt, vv);
      DeleteNavmeshVertexRevert(s, DeleteNavmeshVertexState(navmesh, VertexExecuted((vt, vv), rt)))
        == Some((WithNavmesh(s, navmesh, Navmesh(vs, PutAll(m.triangles, rt).0)), DeleteNavmeshVertexState(navmesh, VertexReverted(vh))))
  {
  }

  /**
   * Deleting a live vertex removes it and exactly the live triangles that use it;
   * undo restores the scene exactly and records the vertex's handle, from which
   * redo repeats the first execution.
   */
  lemma DeleteNavmeshVertexUndo(s: Scene, navmesh: Handle, v: Handle)
    requires IsLive(s.navmeshes, navmesh) && IsLive(NavmeshAt(s, navmesh).vertices, v)
    ensures var c := DeleteNavmeshVertexState(navmesh, VertexNonExecuted(v));
      DeleteNavmeshVertexExecute(s, c).Some?
      && var (s1, c1) := DeleteNavmeshVertexExecute(s, c).value;
      DeleteNavmeshVertexRevert(s1, c1) == Some((s, DeleteNavmeshVertexState(navmesh, VertexReverted(v))))
      && DeleteNavmeshVertexExecute(s, DeleteNavmeshVertexState(navmesh, VertexReverted(v))) == Some((s1, c1))
  {
    var m := NavmeshAt(s, navmesh);
    var ts := TrianglesUsing(m, v);
    var (vs, vt, vv) := TakeReserve(m.vertices, v);
    var (tp, rt) := TakeAll(m.triangles, ts);
    DeleteNavmeshVertexExecuteIs(s, DeleteNavmeshVertexState(navmesh, VertexNonExecuted(v)));
    DeleteNavmeshVertexExecuteIs(s, DeleteNavmeshVertexState(navmesh, VertexReverted(v)));
    TakeReservePutBack(m.vertices, v);
    TakeAllPutAll(m.triangles, ts);
    var s1 := WithNavmesh(s, navmesh, Navmesh(vs, tp));
    DeleteNavmeshVertexRevertIs(s1, navmesh, vt, vv, rt);
    SetTwice(s.navmeshes, navmesh, Navmesh(vs, tp), m);
    SetSame(s.navmeshes, navmesh);
  }

  // ---------------------------------------------------------------- move vertex

  /** The fields of `MoveNavmeshVertexCommand`. */
  datatype MoveNavmeshVertexState = MoveNavmeshVertexState(navmesh: Handle, vertex: Handle, oldPosition: FieldValue, newPosition: FieldValue)

  /**
   * `execute` and `revert`: exchanges the command's two positions and moves the
   * vertex to the position that was the new one. A dead mesh or vertex panics.
   */
  function MoveNavmeshVertexSwap(s: Scene, c: MoveNavmeshVertexState): (r: Option<(Scene, MoveNavmeshVertexState)>)
    ensures r.Some? <==> IsLive(s.navmeshes, c.navmesh) && IsLive(NavmeshAt(s, c.navmesh).vertices, c.vertex)
    ensures r.Some? ==> var (s1, c1) := r.value;
      var m := NavmeshAt(s, c.navmesh);
      c1 == c.(oldPosition := c.newPosition, newPosition := c.oldPosition)
      && s1 == WithNavmesh(s, c.navmesh, m.(vertices := Set(m.vertices, c.vertex, NavmeshVertex(c.newPosition))))
  {
    if !IsLive(s.navmeshes, c.navmesh) then None
    else
      var m := NavmeshAt(s, c.navmesh);
      if !IsLive(m.vertices, c.vertex) then None
      else
        var m1 := m.(vertices := Set(m.vertices, c.vertex, NavmeshVertex(c.newPosition)));
        Some((WithNavmesh(s, c.navmesh, m1), c.(oldPosition := c.newPosition, newPosition := c.oldPosition)))
  }

  /**
   * Undo of a move puts the vertex at the command's old position and restores the
   * command; when the vertex was at that position, the scene is restored exactly.
   */
  lemma MoveNavmeshVertexUndo(s: Scene, c: MoveNavmeshVertexState)
    requires IsLive(s.navmeshes, c.navmesh) && IsLive(NavmeshAt(s, c.navmesh).vertices, c.vertex)
    ensures var (s1, c1) := MoveNavmeshVertexSwap(s, c).value;
      MoveNavmeshVertexSwap(s1, c1).Some?
      && var (s2, c2) := MoveNavmeshVertexSwap(s1, c1).value;
      c2 == c
      && Get(NavmeshAt(s2, c.navmesh).vertices, c.vertex) == NavmeshVertex(c.oldPosition)
      && (Get(NavmeshAt(s, c.navmesh).vertices, c.vertex) == NavmeshVertex(c.oldPosition) ==> s2 == s)
  {
    var m := NavmeshAt(s, c.navmesh);
    var (s1, c1) := MoveNavmeshVertexSwap(s, c).value;
    var m1 := m.(vertices := Set(m.vertices, c.vertex, NavmeshVertex(c.newPosition)));
    var m2 := m.(vertices := Set(Set(m.vertices, c.vertex, NavmeshVertex(c.newPosition)), c.vertex, NavmeshVertex(c.oldPosition)));
    SetTwice(m.vertices, c.vertex, NavmeshVertex(c.newPosition), NavmeshVertex(c.oldPosition));
    SetTwice(s.navmeshes, c.navmesh, m1, m2);
    if Get(m.vertices, c.vertex) == NavmeshVertex(c.oldPosition) {
      SetSame(m.vertices, c.vertex);
      assert m2 == m;
      SetSame(s.navmeshes, c.navmesh);
    }
  }
}
