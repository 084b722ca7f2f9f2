/**
 * The checks and conversions `EditorScene::save` performs before it writes the
 * scene: the validation that refuses joints missing a body, and the conversion
 * of each navigation mesh from pools addressed by handles to dense lists
 * addressed by `u32` indices.
 *
 * The validation as the source writes it looks up the node bound to the joint's
 * first body and indexes the engine graph with it; when there is no such node
 * (always the case when the first body is `NONE`) that indexing panics instead
 * of reporting the joint. `JointReportsAsWritten` keeps that behaviour,
 * `JointReports` reports every such joint, and `Save` uses the latter.
 */
module Saving {
  import opened Pools
  import opened Entities
  import opened SceneGraph
  import opened PhysicsWorld

  // ---------------------------------------------------------------- validation

  /** `body1.is_none() || body2.is_none()`: the save refuses such a joint. */
  predicate IsDetached(j: Joint)
  {
    j.body1 == NONE || j.body2 == NONE
  }

  /**
   * The node bound to `body`, read from the binder's backward map; `NONE` when there
   * is none. The source searches the forward map instead; the two agree when the
   * binder is one-to-one (`AssociatedNodeSearch`).
   */
  function AssociatedNode(b: Binder, body: Handle): Handle
  {
    if body in b.backward then b.backward[body] else NONE
  }

  /**
   * In a one-to-one binder the backward lookup finds what the forward search
   * finds: the node bound to `body` when there is one, `NONE` otherwise.
   */
  lemma AssociatedNodeSearch(b: Binder, body: Handle)
    requires Consistent(b)
    ensures forall k :: k in b.forward && b.forward[k] == body ==> AssociatedNode(b, body) == k
    ensures (forall k :: k in b.forward ==> b.forward[k] != body) ==> AssociatedNode(b, body) == NONE
  {
    forall k | k in b.forward && b.forward[k] == body
      ensures AssociatedNode(b, body) == k
    {
      assert b.forward[k] in b.backward;
    }
  }

  /**
   * The associated nodes the validation loop reports for the joints `hs`, as
   * written: indexing the graph with a node that is not live panics (`None`).
   */
  function JointReportsAsWritten(g: Graph, ph: Physics, hs: seq<Handle>): (r: Option<seq<Handle>>)
    requires forall h :: h in hs ==> IsLive(ph.joints, h)
  {
    if hs == [] then Some([])
    else
      var joint := Get(ph.joints, hs[0]);
      var rest := JointReportsAsWritten(g, ph, hs[1..]);
      if !IsDetached(joint) then rest
      else
        var node := AssociatedNode(ph.binder, joint.body1);
        if !IsLive(g.pool, node) then None
        else Prepended([node], rest)
  }

  /** The joints' reports with every detached joint reported, whether or not its node is live. */
  function JointReports(ph: Physics, hs: seq<Handle>): (r: seq<Handle>)
    requires forall h :: h in hs ==> IsLive(ph.joints, h)
    ensures r == [] <==> forall h :: h in hs ==> !IsDetached(Get(ph.joints, h))
    ensures |r| <= |hs|
  {
    if hs == [] then []
    else
      var joint := Get(ph.joints, hs[0]);
      assert forall h :: h in hs <==> h == hs[0] || h in hs[1..];
      (if IsDetached(joint) then [AssociatedNode(ph.binder, joint.body1)] else []) + JointReports(ph, hs[1..])
  }

  /** `acc` followed by the outcome `rest`; `None` when `rest` is a panic. */
  function Prepended<T>(acc: seq<T>, rest: Option<seq<T>>): (r: Option<seq<T>>)
    ensures r.Some? <==> rest.Some?
    ensures r.Some? ==> |r.value| == |acc| + |rest.value| && r.value[..|acc|] == acc && r.value[|acc|..] == rest.value
  {
    match rest
    case None => None
    case Some(tail) => Some(acc + tail)
  }

  /**
   * The validation as written completes exactly when the node of every detached
   * joint is live, and then reports what `JointReports` reports.
   */
  lemma {:induction false} JointReportsAgree(g: Graph, ph: Physics, hs: seq<Handle>)
    requires forall h :: h in hs ==> IsLive(ph.joints, h)
    ensures JointReportsAsWritten(g, ph, hs).Some? <==>
      forall h :: h in hs && IsDetached(Get(ph.joints, h)) ==> IsLive(g.pool, AssociatedNode(ph.binder, Get(ph.joints, h).body1))
    ensures JointReportsAsWritten(g, ph, hs).Some? ==> JointReportsAsWritten(g, ph, hs).value == JointReports(ph, hs)
    decreases |hs|
  {
    if hs != [] {
      JointReportsAgree(g, ph, hs[1..]);
      assert forall h :: h in hs <==> h == hs[0] || h in hs[1..];
    }
  }

  /**
   * A live joint whose first body is `NONE` makes the validation panic: no node
   * is bound to `NONE`, so the graph is indexed with `NONE`, which is never live.
   */
  lemma DetachedJointPanics(g: Graph, ph: Physics, h: Handle)
    requires Valid(g.pool) && NONE !in ph.binder.backward
    requires IsLive(ph.joints, h) && Get(ph.joints, h).body1 == NONE
    ensures forall k :: k in LiveHandles(ph.joints) ==> IsLive(ph.joints, k)
    ensures JointReportsAsWritten(g, ph, LiveHandles(ph.joints)) == None
  {
    LiveHandlesExact(ph.joints);
    NoneNeverLive(g.pool);
    JointReportsAgree(g, ph, LiveHandles(ph.joints));
    assert h in LiveHandles(ph.joints) && IsDetached(Get(ph.joints, h));
  }

  /** The validation loop of `save` over `joints.iter()`, as written. */
  method ValidateJoints(g: Graph, ph: Physics) returns (r: Option<seq<Handle>>)
    ensures forall k :: k in LiveHandles(ph.joints) ==> IsLive(ph.joints, k)
    ensures r == JointReportsAsWritten(g, ph, LiveHandles(ph.joints))
  {
    LiveHandlesExact(ph.joints);
    var hs := LiveHandles(ph.joints);
    var reports: seq<Handle> := [];
    for i := 0 to |hs|
      invariant JointReportsAsWritten(g, ph, hs) == Prepended(reports, JointReportsAsWritten(g, ph, hs[i..]))
    {
      assert hs[i..][1..] == hs[i + 1..];
      var joint := Get(ph.joints, hs[i]);
      if IsDetached(joint) {
        var node := AssociatedNode(ph.binder, joint.body1);
        if !IsLive(g.pool, node) {
          return None;
        }
        PrependedAssoc(reports, [node], JointReportsAsWritten(g, ph, hs[i + 1..]));
        reports := reports + [node];
      }
    }
    assert hs[|hs|..] == [];
    assert reports + [] == reports;
    return Some(reports);
  }

  lemma PrependedAssoc<T>(acc: seq<T>, more: seq<T>, rest: Option<seq<T>>)
    ensures Prepended(acc + more, rest) == Prepended(acc, Prepended(more, rest))
  {
    match rest
    case None =>
    case Some(tail) =>
      assert (acc + more) + tail == acc + (more + tail);
  }

  // ---------------------------------------------------------------- navigation meshes

  const U32_MODULUS: nat := 0x1_0000_0000

  /** `i as u32` for a `usize` index: the low 32 bits. */
  function AsU32(i: nat): (r: nat)
    ensures r < U32_MODULUS
    ensures i < U32_MODULUS ==> r == i
  {
    i % U32_MODULUS
  }

  /** `TriangleDefinition`: three vertex indices into the dense vertex list. */
  datatype TriangleDefinition = TriangleDefinition(a: nat, b: nat, c: nat)

  /** The engine navigation mesh `save` builds: dense triangles over dense vertex positions. */
  datatype SavedNavmesh = SavedNavmesh(triangles: seq<TriangleDefinition>, vertices: seq<FieldValue>)

  /** The positions of the vertices `hs`, in order. */
  function Positions(vertices: Pool<NavmeshVertex>, hs: seq<Handle>): (r: seq<FieldValue>)
    requires forall h :: h in hs ==> IsLive(vertices, h)
    ensures |r| == |hs|
    ensures forall i :: 0 <= i < |hs| ==> r[i] == Get(vertices, hs[i]).position
  {
    if hs == [] then [] else Positions(vertices, hs[..|hs| - 1]) + [Get(vertices, hs[|hs| - 1]).position]
  }

  /**
   * The triangles `ts` with each vertex handle replaced by its position in the
   * enumeration `hs`; `vertex_map[&h]` panics for a handle that is not there.
   */
  function DenseTriangles(hs: seq<Handle>, triangles: Pool<NavmeshTriangle>, ts: seq<Handle>): (r: Option<seq<TriangleDefinition>>)
    requires forall t :: t in ts ==> IsLive(triangles, t)
    ensures r.Some? <==> forall t :: t in ts ==> forall v :: v in TriangleVertices(Get(triangles, t)) ==> v in hs
    ensures r.Some? ==> |r.value| == |ts|
  {
    if ts == [] then Some([])
    else
      var t := Get(triangles, ts[0]);
      assert forall x :: x in ts <==> x == ts[0] || x in ts[1..];
      if !(t.a in hs && t.b in hs && t.c in hs) then None
      else
        var d := TriangleDefinition(AsU32(IndexOf(hs, t.a)), AsU32(IndexOf(hs, t.b)), AsU32(IndexOf(hs, t.c)));
        Prepended([d], DenseTriangles(hs, triangles, ts[1..]))
  }

  /** The sparse-to-dense conversion of one navigation mesh; `None` if a triangle uses a vertex that is not live. */
  function DenseNavmesh(n: Navmesh): (r: Option<SavedNavmesh>)
  {
    LiveHandlesExact(n.vertices);
    LiveHandlesExact(n.triangles);
    var hs := LiveHandles(n.vertices);
    match DenseTriangles(hs, n.triangles, LiveHandles(n.triangles))
    case None => None
    case Some(triangles) => Some(SavedNavmesh(triangles, Positions(n.vertices, hs)))
  }

  /**
   * A saved triangle `d` stands for the mesh triangle `t`: each of its three
   * indices is in range of the saved positions and picks the position of the
   * corresponding live vertex of `t`.
   */
  ghost predicate SavedTriangleMatches(vertices: Pool<NavmeshVertex>, ps: seq<FieldValue>, d: TriangleDefinition, t: NavmeshTriangle)
  {
    d.a < |ps| && d.b < |ps| && d.c < |ps|
    && IsLive(vertices, t.a) && ps[d.a] == Get(vertices, t.a).position
    && IsLive(vertices, t.b) && ps[d.b] == Get(vertices, t.b).position
    && IsLive(vertices, t.c) && ps[d.c] == Get(vertices, t.c).position
  }

  /**
   * Each dense triangle's indices, read back through the dense vertex list, give
   * the positions of the original triangle's vertices (while there are no more
   * than 2^32 vertices, so that no index is truncated).
   */
  lemma {:induction false} DenseTrianglesPreserve(vertices: Pool<NavmeshVertex>, triangles: Pool<NavmeshTriangle>, ts: seq<Handle>)
    requires forall t :: t in ts ==> IsLive(triangles, t)
    requires |LiveHandles(vertices)| <= U32_MODULUS
    requires DenseTriangles(LiveHandles(vertices), triangles, ts).Some?
    ensures forall h :: h in LiveHandles(vertices) ==> IsLive(vertices, h)
    ensures var hs := LiveHandles(vertices);
      var ds := DenseTriangles(hs, triangles, ts).value;
      forall k :: 0 <= k < |ds| ==> SavedTriangleMatches(vertices, Positions(vertices, hs), ds[k], Get(triangles, ts[k]))
    decreases |ts|
  {
    var hs := LiveHandles(vertices);
    LiveHandlesExact(vertices);
    if ts != [] {
      DenseTrianglesPreserve(vertices, triangles, ts[1..]);
      var ds := DenseTriangles(hs, triangles, ts).value;
      var rest := DenseTriangles(hs, triangles, ts[1..]).value;
      assert ds == [ds[0]] + rest;
      DenseTriangleMatches(vertices, Get(triangles, ts[0]));
      forall k | 1 <= k < |ds|
        ensures ds[k] == rest[k - 1] && ts[k] == ts[1..][k - 1]
      {
      }
    }
  }

  /** One triangle whose vertices are all live, saved by the index of each vertex among the live vertices. */
  lemma DenseTriangleMatches(vertices: Pool<NavmeshVertex>, t: NavmeshTriangle)
    requires |LiveHandles(vertices)| <= U32_MODULUS
    requires var hs := LiveHandles(vertices); t.a in hs && t.b in hs && t.c in hs
    ensures forall h :: h in LiveHandles(vertices) ==> IsLive(vertices, h)
    ensures var hs := LiveHandles(vertices);
      SavedTriangleMatches(vertices, Positions(vertices, hs),
        TriangleDefinition(AsU32(IndexOf(hs, t.a)), AsU32(IndexOf(hs, t.b)), AsU32(IndexOf(hs, t.c))), t)
  {
    var hs := LiveHandles(vertices);
    LiveHandlesExact(vertices);
    assert hs[IndexOf(hs, t.a)] == t.a && hs[IndexOf(hs, t.b)] == t.b && hs[IndexOf(hs, t.c)] == t.c;
  }


  /**
   * A saved navigation mesh has one position per live vertex and one triangle
   * per live triangle, in pool order, and exists exactly when every live
   * triangle uses live vertices only.
   */
  lemma DenseNavmeshShape(n: Navmesh)
    ensures DenseNavmesh(n).Some? <==>
      forall t, v :: IsLive(n.triangles, t) && v in TriangleVertices(Get(n.triangles, t)) ==> IsLive(n.vertices, v)
    ensures DenseNavmesh(n).Some? ==>
      |DenseNavmesh(n).value.vertices| == |LiveHandles(n.vertices)|
      && |DenseNavmesh(n).value.triangles| == |LiveHandles(n.triangles)|
  {
    LiveHandlesExact(n.vertices);
    LiveHandlesExact(n.triangles);
  }

  /**
   * A saved navigation mesh keeps its geometry: the `k`-th live triangle's
   * vertices are found, through the dense indices, at their own positions.
   */
  lemma DenseNavmeshPreserves(n: Navmesh)
    requires DenseNavmesh(n).Some? && |LiveHandles(n.vertices)| <= U32_MODULUS
    ensures forall t :: t in LiveHandles(n.triangles) ==> IsLive(n.triangles, t)
    ensures var saved := DenseNavmesh(n).value;
      var ts := LiveHandles(n.triangles);
      |saved.triangles| == |ts|
      && forall k :: 0 <= k < |ts| ==> SavedTriangleMatches(n.vertices, saved.vertices, saved.triangles[k], Get(n.triangles, ts[k]))
  {
    LiveHandlesExact(n.triangles);
    DenseTrianglesPreserve(n.vertices, n.triangles, LiveHandles(n.triangles));
  }

  /** The loops that build `vertex_map`, the vertex list and the triangle list of one navigation mesh. */
  method SaveNavmesh(n: Navmesh) returns (r: Option<SavedNavmesh>)
    ensures r == DenseNavmesh(n)
  {
    LiveHandlesExact(n.vertices);
    LiveHandlesExact(n.triangles);
    var hs := LiveHandles(n.vertices);
    var vertexMap: map<Handle, nat> := map[];
    var vertices: seq<FieldValue> := [];
    for i := 0 to |hs|
      invariant vertices == Positions(n.vertices, hs[..i])
      invariant forall h :: h in vertexMap <==> h in hs[..i]
      invariant forall h :: h in vertexMap ==> vertexMap[h] == IndexOf(hs, h)
    {
      assert hs[..i + 1] == hs[..i] + [hs[i]];
      IndexOfDistinct(n.vertices, hs, i);
      vertexMap := vertexMap[hs[i] := i];
      vertices := vertices + [Get(n.vertices, hs[i]).position];
    }
    assert hs[..|hs|] == hs;
    var ts := LiveHandles(n.triangles);
    var triangles: seq<TriangleDefinition> := [];
    for i := 0 to |ts|
      invariant DenseTriangles(hs, n.triangles, ts) == Prepended(triangles, DenseTriangles(hs, n.triangles, ts[i..]))
    {
      assert ts[i..][1..] == ts[i + 1..];
      var t := Get(n.triangles, ts[i]);
      if !(t.a in vertexMap && t.b in vertexMap && t.c in vertexMap) {
        return None;
      }
      var d := TriangleDefinition(AsU32(vertexMap[t.a]), AsU32(vertexMap[t.b]), AsU32(vertexMap[t.c]));
      PrependedAssoc(triangles, [d], DenseTriangles(hs, n.triangles, ts[i + 1..]));
      triangles := triangles + [d];
    }
    assert ts[|ts|..] == [];
    assert triangles + [] == triangles;
    return Some(SavedNavmesh(triangles, vertices));
  }

  /** In the live handles of a pool, the first position of the `i`-th handle is `i`. */
  lemma IndexOfDistinct<T>(p: Pool<T>, hs: seq<Handle>, i: nat)
    requires hs == LiveHandles(p) && i < |hs|
    ensures IndexOf(hs, hs[i]) == i
  {
    LiveHandlesExact(p);
  }

  // ---------------------------------------------------------------- save

  /** What `save` does: refuse with the reported nodes, or produce the dense navigation meshes. */
  datatype SaveOutcome = Rejected(invalidJointNodes: seq<Handle>) | Saved(navmeshes: seq<SavedNavmesh>)

  /** The conversions of the navigation meshes `ms`, in order; `None` if one of them panics. */
  function DenseNavmeshes(navmeshes: Pool<Navmesh>, ms: seq<Handle>): (r: Option<seq<SavedNavmesh>>)
    requires forall m :: m in ms ==> IsLive(navmeshes, m)
    ensures r.Some? <==> forall m :: m in ms ==> DenseNavmesh(Get(navmeshes, m)).Some?
    ensures r.Some? ==> |r.value| == |ms| && forall k :: 0 <= k < |ms| ==> r.value[k] == DenseNavmesh(Get(navmeshes, ms[k])).value
  {
    if ms == [] then Some([])
    else
      assert forall m :: m in ms <==> m == ms[0] || m in ms[1..];
      match DenseNavmesh(Get(navmeshes, ms[0]))
      case None => None
      case Some(d) => Prepended([d], DenseNavmeshes(navmeshes, ms[1..]))
  }

  /**
   * `save` without the file write: the validation (reporting every detached
   * joint), then the navigation mesh conversion. `None` where the conversion panics.
   */
  function Save(ph: Physics, navmeshes: Pool<Navmesh>): (r: Option<SaveOutcome>)
  {
    LiveHandlesExact(ph.joints);
    LiveHandlesExact(navmeshes);
    var reports := JointReports(ph, LiveHandles(ph.joints));
    if reports != [] then Some(Rejected(reports))
    else
      match DenseNavmeshes(navmeshes, LiveHandles(navmeshes))
      case None => None
      case Some(ms) => Some(Saved(ms))
  }

  /**
   * `save` refuses exactly when some live joint misses a body; otherwise it
   * produces one dense mesh per live navigation mesh, in pool order.
   */
  lemma SaveOutcomes(ph: Physics, navmeshes: Pool<Navmesh>)
    ensures (Save(ph, navmeshes).Some? && Save(ph, navmeshes).value.Rejected?) <==>
      exists h :: IsLive(ph.joints, h) && IsDetached(Get(ph.joints, h))
    ensures Save(ph, navmeshes).Some? && Save(ph, navmeshes).value.Saved? ==>
      var ms := LiveHandles(navmeshes);
      var saved := Save(ph, navmeshes).value.navmeshes;
      (forall m :: m in ms ==> IsLive(navmeshes, m))
      && |saved| == |ms|
      && forall k :: 0 <= k < |ms| ==> Some(saved[k]) == DenseNavmesh(Get(navmeshes, ms[k]))
  {
    LiveHandlesExact(ph.joints);
    LiveHandlesExact(navmeshes);
  }

  /** The loop of `save` over `navmeshes.iter()`. */
  method SaveNavmeshes(navmeshes: Pool<Navmesh>) returns (r: Option<seq<SavedNavmesh>>)
    ensures forall m :: m in LiveHandles(navmeshes) ==> IsLive(navmeshes, m)
    ensures r == DenseNavmeshes(navmeshes, LiveHandles(navmeshes))
  {
    LiveHandlesExact(navmeshes);
    var ms := LiveHandles(navmeshes);
    var saved: seq<SavedNavmesh> := [];
    for i := 0 to |ms|
      invariant DenseNavmeshes(navmeshes, ms) == Prepended(saved, DenseNavmeshes(navmeshes, ms[i..]))
    {
      assert ms[i..][1..] == ms[i + 1..];
      var d := SaveNavmesh(Get(navmeshes, ms[i]));
      if d.None? {
        return None;
      }
      PrependedAssoc(saved, [d.value], DenseNavmeshes(navmeshes, ms[i + 1..]));
      saved := saved + [d.value];
    }
    assert ms[|ms|..] == [];
    assert saved + [] == saved;
    return Some(saved);
  }
}
