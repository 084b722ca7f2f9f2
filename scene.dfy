/**
 * What the editor's commands act on: the engine scene's graph, and the editor
 * scene's physics, navigation meshes, selection and clipboard. The message
 * channel the commands report selection changes on is a count of the
 * `SelectionChanged` messages sent.
 */
module Scenes {
  import opened Pools
  import opened Entities
  import opened SceneGraph
  import opened PhysicsWorld
  import opened Selections
  import opened DeepClones

  datatype Scene = Scene(
    graph: Graph,
    physics: Physics,
    navmeshes: Pool<Navmesh>,
    selection: Selection,
    clipboard: ClipboardData,
    selectionChanged: nat)

  /** A node's value, or `None` when its handle is dead (indexing it panics). */
  function NodeAt(s: Scene, h: Handle): (r: Option<Node>)
    ensures r.Some? <==> IsLive(s.graph.pool, h)
    ensures r.Some? ==> r.value == Get(s.graph.pool, h)
  {
    TryBorrow(s.graph.pool, h)
  }

  /** Replaces the value of a live node; every other node, and the rest of the scene, is unchanged. */
  function WithNode(s: Scene, h: Handle, n: Node): (r: Scene)
    requires IsLive(s.graph.pool, h)
    ensures r == s.(graph := r.graph) && r.graph.root == s.graph.root
    ensures IsLive(r.graph.pool, h) && Get(r.graph.pool, h) == n
    ensures SameLive(s.graph.pool, r.graph.pool)
    ensures forall x :: IsLive(s.graph.pool, x) && x != h ==> Get(r.graph.pool, x) == Get(s.graph.pool, x)
  {
    s.(graph := s.graph.(pool := Set(s.graph.pool, h, n)))
  }

  /** Writing a node back unchanged leaves the scene as it was. */
  lemma WithNodeSame(s: Scene, h: Handle)
    requires IsLive(s.graph.pool, h)
    ensures WithNode(s, h, Get(s.graph.pool, h)) == s
  {
    SetSame(s.graph.pool, h);
  }

  /** The second of two writes to the same node wins. */
  lemma WithNodeTwice(s: Scene, h: Handle, a: Node, b: Node)
    requires IsLive(s.graph.pool, h)
    ensures WithNode(WithNode(s, h, a), h, b) == WithNode(s, h, b)
  {
    SetTwice(s.graph.pool, h, a, b);
  }

  /** Writing a node and then restoring its old value restores the scene. */
  lemma WithNodeRestore(s: Scene, h: Handle, a: Node)
    requires IsLive(s.graph.pool, h)
    ensures WithNode(WithNode(s, h, a), h, Get(s.graph.pool, h)) == s
  {
    WithNodeTwice(s, h, a, Get(s.graph.pool, h));
    WithNodeSame(s, h);
  }
}
