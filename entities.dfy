/**
 * The scene entities the editor's commands create, delete and edit: graph nodes
 * (with their level-of-detail groups and particle emitters), rigid bodies,
 * colliders, joints and navigation meshes. Property values (vectors, colours,
 * angles, flags, names, textures...) are only copied and swapped by the
 * commands, never inspected, so they are one opaque type.
 */
module Entities {
  import opened Pools

  /** Any property value the commands move around without looking into it. */
  type FieldValue(==)

  /**
   * Node properties reached through a getter/setter pair. Kind-specific ones
   * (light, spot light, camera, sprite, mesh, particle system) are present in a
   * node's property map only when the node is of that kind.
   */
  datatype NodeProp =
    | Position | Scale | Rotation | Name | Tag | Visibility | PhysicsBinding
    | LightColor | LightScatter | LightScatterEnabled | LightCastShadows
    | PointLightRadius | SpotLightHotspot | SpotLightFalloffAngleDelta | SpotLightDistance
    | CameraFov | CameraZNear | CameraZFar
    | ParticleSystemAcceleration | ParticleSystemTexture
    | SpriteSize | SpriteRotation | SpriteColor | SpriteTexture
    | MeshCastShadows | MeshRenderPath

  /** A level of detail: a range of distances and the nodes drawn within it. */
  datatype LevelOfDetail = LevelOfDetail(begin: FieldValue, end: FieldValue, objects: seq<Handle>)

  datatype LodGroup = LodGroup(levels: seq<LevelOfDetail>)

  /** Emitter properties; the shape-specific ones exist only for emitters of that shape. */
  datatype EmitterProp =
    | EmitterPosition | SphereRadius | CylinderRadius | CylinderHeight
    | BoxHalfWidth | BoxHalfHeight | BoxHalfDepth

  datatype Emitter = Emitter(props: map<EmitterProp, FieldValue>)

  /**
   * A scene graph node. `emitters` is present exactly for particle systems.
   */
  datatype Node = Node(
    parent: Handle,
    children: seq<Handle>,
    props: map<NodeProp, FieldValue>,
    lodGroup: Option<LodGroup>,
    emitters: Option<seq<Emitter>>)

  /** `Node::raw_copy`: the node's own data without its place in the hierarchy. */
  function RawCopy(n: Node): (r: Node)
    ensures r.parent == NONE && r.children == []
    ensures r.props == n.props && r.lodGroup == n.lodGroup && r.emitters == n.emitters
  {
    n.(parent := NONE, children := [])
  }

  datatype BodyProp = BodyPosition | BodyRotation | Mass

  /** A rigid body and the colliders attached to it. */
  datatype RigidBody = RigidBody(colliders: seq<Handle>, props: map<BodyProp, FieldValue>)

  /** Collider properties; the shape-specific ones exist only for colliders of that shape. */
  datatype ColliderProp =
    | Friction | Restitution | Translation | ColliderRotation | IsSensor | CollisionGroups
    | CylinderHalfHeight | CylinderShapeRadius | ConeHalfHeight | ConeRadius
    | CuboidHalfExtents | CapsuleRadius | CapsuleBegin | CapsuleEnd | BallRadius

  /** A collider, attached to the body `parent`. */
  datatype Collider = Collider(parent: Handle, props: map<ColliderProp, FieldValue>)

  /** Joint parameters; each exists only for joints of the matching kind. */
  datatype JointProp =
    | BallAnchor1 | BallAnchor2
    | FixedAnchor1Translation | FixedAnchor2Translation | FixedAnchor1Rotation | FixedAnchor2Rotation
    | RevoluteAnchor1 | RevoluteAxis1 | RevoluteAnchor2 | RevoluteAxis2
    | PrismaticAnchor1 | PrismaticAxis1 | PrismaticAnchor2 | PrismaticAxis2

  /** A joint between `body1` and `body2`; either may be `NONE`. */
  datatype Joint = Joint(body1: Handle, body2: Handle, props: map<JointProp, FieldValue>)

  datatype NavmeshVertex = NavmeshVertex(position: FieldValue)

  datatype NavmeshTriangle = NavmeshTriangle(a: Handle, b: Handle, c: Handle)

  /** The three vertex handles of a triangle, in order. */
  function TriangleVertices(t: NavmeshTriangle): (r: seq<Handle>)
    ensures |r| == 3 && r[0] == t.a && r[1] == t.b && r[2] == t.c
  {
    [t.a, t.b, t.c]
  }

  datatype NavmeshEdge = NavmeshEdge(begin: Handle, end: Handle)

  datatype Navmesh = Navmesh(vertices: Pool<NavmeshVertex>, triangles: Pool<NavmeshTriangle>)

  /** `iter().position(x)`: index of the first occurrence of `x`, or `|s|` when absent. */
  function IndexOf<T(==)>(s: seq<T>, x: T): (r: nat)
    ensures r <= |s| && x !in s[..r]
    ensures r < |s| ==> s[r] == x
    ensures r == |s| <==> x !in s
  {
    if s == [] then 0
    else if s[0] == x then 0
    else
      var r := 1 + IndexOf(s[1..], x);
      assert s[..r] == [s[0]] + s[1..][..r - 1];
      r
  }

  /** `Vec::insert`: `x` lands at position `i`, the elements from `i` on move up by one. */
  function InsertAt<T>(s: seq<T>, i: nat, x: T): (r: seq<T>)
    requires i <= |s|
    ensures |r| == |s| + 1 && r[i] == x
    ensures forall k :: 0 <= k < i ==> r[k] == s[k]
    ensures forall k :: i < k < |r| ==> r[k] == s[k - 1]
  {
    s[..i] + [x] + s[i..]
  }

  /** `Vec::remove`: drops the element at position `i`, the later ones move down by one. */
  function RemoveAt<T>(s: seq<T>, i: nat): (r: seq<T>)
    requires i < |s|
    ensures |r| == |s| - 1
    ensures forall k :: 0 <= k < i ==> r[k] == s[k]
    ensures forall k :: i <= k < |r| ==> r[k] == s[k + 1]
  {
    s[..i] + s[i + 1..]
  }

  /** Putting a removed element back where it was restores the sequence. */
  lemma InsertRemoved<T>(s: seq<T>, i: nat)
    requires i < |s|
    ensures InsertAt(RemoveAt(s, i), i, s[i]) == s
  {
    var r := InsertAt(RemoveAt(s, i), i, s[i]);
    assert forall k :: 0 <= k < |s| ==> r[k] == s[k];
  }

  /** Removing an element that was just inserted restores the sequence. */
  lemma RemoveInserted<T>(s: seq<T>, i: nat, x: T)
    requires i <= |s|
    ensures RemoveAt(InsertAt(s, i, x), i) == s
  {
    var r := RemoveAt(InsertAt(s, i, x), i);
    assert forall k :: 0 <= k < |s| ==> r[k] == s[k];
  }


  /** `Vec::remove` at the first position holding `x`; unchanged when `x` is absent. */
  function RemoveFirst<T(==)>(s: seq<T>, x: T): (r: seq<T>)
    ensures x !in s ==> r == s
    ensures x in s ==> |r| == |s| - 1
    ensures multiset(r) == multiset(s) - multiset{x}
  {
    var i := IndexOf(s, x);
    if i < |s| then
      assert s == s[..i] + [x] + s[i + 1..];
      s[..i] + s[i + 1..]
    else
      assert multiset(s)[x] == 0;
      s
  }

  /** Pushing an element a list lacks and removing its first occurrence restores the list. */
  lemma RemoveFirstAppended<T>(s: seq<T>, x: T)
    requires x !in s
    ensures RemoveFirst(s + [x], x) == s
  {
    assert (s + [x])[..|s|] == s;
  }
}
