/**
 * `SceneCommand`, the closed sum of the editor's scene commands, with the
 * dispatch of `execute`, `revert` and `finalize` to each command, and
 * `CommandGroup`, which executes its commands in list order, reverts them in
 * reverse order and finalizes each of them once while draining the list.
 *
 * Commands that differ only in the field they swap share one case here: every
 * `define_node_command!`/`get_set_swap!` node setter is `SetNodeProperty`, every
 * body, collider and joint setter is `SetPhysicsProperty`, every emitter setter is
 * `SetEmitterProperty`, and the two level-of-detail range commands are
 * `ChangeLodRange`. A panic anywhere is `None`.
 */
module Commands {
  import opened Pools
  import opened Entities
  import opened Scenes
  import opened PoolCommands
  import opened GraphCommands
  import opened NodeCommands
  import opened PhysicsCommands
  import opened NavmeshCommands
  import opened SelectionCommands
  import opened PasteCommands
  import opened CommandGroups

  datatype SceneCommand =
    | CommandGroup(commands: seq<SceneCommand>)
    | Paste(paste: PasteStage)
    | AddNode(addNode: AddNodeState)
    | DeleteNode(deleteNode: DeleteNodeState)
    | DeleteSubGraph(deleteSubGraph: DeleteSubGraphState)
    | ChangeSelection(changeSelection: ChangeSelectionState)
    | TransformNode(transform: TransformState)
    | LinkNodes(link: LinkNodesState)
    | SetNodeProperty(nodeProperty: NodePropertyState)
    | SetLodGroup(lodGroup: SetLodGroupState)
    | AddLodGroupLevel(addLevel: AddLodLevelState)
    | RemoveLodGroupLevel(removeLevel: RemoveLodLevelState)
    | AddLodObject(addObject: AddLodObjectState)
    | RemoveLodObject(removeObject: RemoveLodObjectState)
    | ChangeLodRange(lodRange: LodRangeState)
    | AddJoint(addJoint: AddState<Joint>)
    | DeleteJoint(deleteJoint: DeleteState<Joint>)
    | SetBody(setBody: SetBodyState)
    | SetCollider(setCollider: SetColliderState)
    | DeleteBody(deleteBody: DeleteBodyState)
    | DeleteCollider(deleteCollider: DeleteColliderState)
    | SetPhysicsProperty(physicsProperty: PhysicsPropertyState)
    | LoadModel(loadModel: LoadModelState)
    | AddParticleSystemEmitter(addEmitter: AddEmitterState)
    | DeleteEmitter(deleteEmitter: DeleteEmitterState)
    | SetEmitterProperty(emitterProperty: EmitterPropertyState)
    | AddNavmesh(addNavmesh: AddState<Navmesh>)
    | DeleteNavmesh(deleteNavmesh: DeleteState<Navmesh>)
    | MoveNavmeshVertex(moveVertex: MoveNavmeshVertexState)
    | AddNavmeshTriangle(triangleMesh: Handle, addTriangle: AddState<NavmeshTriangle>)
    | AddNavmeshVertex(vertexMesh: Handle, addVertex: AddState<NavmeshVertex>)
    | AddNavmeshEdge(addEdge: AddNavmeshEdgeState)
    | DeleteNavmeshVertex(deleteVertex: DeleteNavmeshVertexState)
    | ConnectNavmeshEdges(connect: ConnectNavmeshEdgesState)

  // ---------------------------------------------------------------- pools outside the graph

  function WithJoints(s: Scene, p: Pool<Joint>): Scene
  {
    s.(physics := s.physics.(joints := p))
  }

  /** The triangle pool of a navigation mesh, replaced; indexing a dead mesh panics. */
  function WithTriangles(s: Scene, mesh: Handle, p: Pool<NavmeshTriangle>): Scene
    requires IsLive(s.navmeshes, mesh)
  {
    WithNavmesh(s, mesh, NavmeshAt(s, mesh).(triangles := p))
  }

  /** The vertex pool of a navigation mesh, replaced; indexing a dead mesh panics. */
  function WithVertices(s: Scene, mesh: Handle, p: Pool<NavmeshVertex>): Scene
    requires IsLive(s.navmeshes, mesh)
  {
    WithNavmesh(s, mesh, NavmeshAt(s, mesh).(vertices := p))
  }

  // ---------------------------------------------------------------- dispatch

  /** `execute` of one command; a group executes its commands in list order. */
  function Execute(s: Scene, c: SceneCommand): (r: Option<(Scene, SceneCommand)>)
    ensures c.CommandGroup? && r.Some? ==> r.value.1.CommandGroup? && |r.value.1.commands| == |c.commands|
    ensures c.ChangeSelection? ==> r.Some?
    decreases c
  {
    match c
    case CommandGroup(cs) =>
      (match Forward((y: Scene, d: SceneCommand) => if d in cs then Execute(y, d) else None, s, cs)
       case None => None
       case Some((s1, cs1)) => Some((s1, CommandGroup(cs1))))
    case _ => ExecuteSingle(s, c)
  }

  /** `execute` of any command but a group, by the kind of entity it edits. */
  function ExecuteSingle(s: Scene, c: SceneCommand): (r: Option<(Scene, SceneCommand)>)
    requires !c.CommandGroup?
    ensures c.ChangeSelection? ==> r.Some?
  {
    if c.Paste? || c.AddNode? || c.DeleteNode? || c.DeleteSubGraph? || c.ChangeSelection? || c.TransformNode? || c.LinkNodes? || c.LoadModel? then
      ExecuteGraphCommand(s, c)
    else if c.SetNodeProperty? || c.SetLodGroup? || c.AddLodGroupLevel? || c.RemoveLodGroupLevel? || c.AddLodObject? || c.RemoveLodObject? || c.ChangeLodRange? || c.AddParticleSystemEmitter? || c.DeleteEmitter? || c.SetEmitterProperty? then
      ExecuteNodeCommand(s, c)
    else if c.AddJoint? || c.DeleteJoint? || c.SetBody? || c.SetCollider? || c.DeleteBody? || c.DeleteCollider? || c.SetPhysicsProperty? then
      ExecutePhysicsCommand(s, c)
    else
      ExecuteNavmeshCommand(s, c)
  }

  /** `execute` of a paste, scene-graph, selection or transform command. */
  function ExecuteGraphCommand(s: Scene, c: SceneCommand): (r: Option<(Scene, SceneCommand)>)
    requires c.Paste? || c.AddNode? || c.DeleteNode? || c.DeleteSubGraph? || c.ChangeSelection? || c.TransformNode? || c.LinkNodes? || c.LoadModel?
    ensures c.ChangeSelection? ==> r.Some?
  {
    match c
    case Paste(x) =>
      (match PasteExecute(s, x) case None => None case Some((s1, x1)) => Some((s1, Paste(x1))))
    case AddNode(x) =>
      (match AddNodeExecute(s, x) case None => None case Some((s1, x1)) => Some((s1, AddNode(x1))))
    case DeleteNode(x) =>
      (match DeleteNodeExecute(s, x) case None => None case Some((s1, x1)) => Some((s1, DeleteNode(x1))))
    case DeleteSubGraph(x) =>
      (match DeleteSubGraphExecute(s, x) case None => None case Some((s1, x1)) => Some((s1, DeleteSubGraph(x1))))
    case ChangeSelection(x) =>
      var (s1, x1) := ChangeSelectionSwap(s, x);
      Some((s1, ChangeSelection(x1)))
    case TransformNode(x) =>
      (match TransformSwap(s, x) case None => None case Some((s1, x1)) => Some((s1, TransformNode(x1))))
    case LinkNodes(x) =>
      (match LinkNodesSwap(s, x) case None => None case Some((s1, x1)) => Some((s1, LinkNodes(x1))))
    case LoadModel(x) =>
      (match LoadModelExecute(s, x) case None => None case Some((s1, x1)) => Some((s1, LoadModel(x1))))
  }

  /** `execute` of a node property, level-of-detail or emitter command. */
  function ExecuteNodeCommand(s: Scene, c: SceneCommand): (r: Option<(Scene, SceneCommand)>)
    requires c.SetNodeProperty? || c.SetLodGroup? || c.AddLodGroupLevel? || c.RemoveLodGroupLevel? || c.AddLodObject? || c.RemoveLodObject? || c.ChangeLodRange? || c.AddParticleSystemEmitter? || c.DeleteEmitter? || c.SetEmitterProperty?
  {
    match c
    case SetNodeProperty(x) =>
      (match NodePropertySwap(s, x) case None => None case Some((s1, x1)) => Some((s1, SetNodeProperty(x1))))
    case SetLodGroup(x) =>
      (match SetLodGroupSwap(s, x) case None => None case Some((s1, x1)) => Some((s1, SetLodGroup(x1))))
    case AddLodGroupLevel(x) =>
      (match AddLodLevelExecute(s, x) case None => None case Some(s1) => Some((s1, c)))
    case RemoveLodGroupLevel(x) =>
      (match RemoveLodLevelExecute(s, x) case None => None case Some((s1, x1)) => Some((s1, RemoveLodGroupLevel(x1))))
    case AddLodObject(x) =>
      (match AddLodObjectExecute(s, x) case None => None case Some((s1, x1)) => Some((s1, AddLodObject(x1))))
    case RemoveLodObject(x) =>
      (match RemoveLodObjectExecute(s, x) case None => None case Some((s1, x1)) => Some((s1, RemoveLodObject(x1))))
    case ChangeLodRange(x) =>
      (match LodRangeSwap(s, x) case None => None case Some((s1, x1)) => Some((s1, ChangeLodRange(x1))))
    case AddParticleSystemEmitter(x) =>
      (match AddEmitterExecute(s, x) case None => None case Some((s1, x1)) => Some((s1, AddParticleSystemEmitter(x1))))
    case DeleteEmitter(x) =>
      (match DeleteEmitterExecute(s, x) case None => None case Some((s1, x1)) => Some((s1, DeleteEmitter(x1))))
    case SetEmitterProperty(x) =>
      (match EmitterPropertySwap(s, x) case None => None case Some((s1, x1)) => Some((s1, SetEmitterProperty(x1))))
  }

  /** `execute` of a physics command. */
  function ExecutePhysicsCommand(s: Scene, c: SceneCommand): (r: Option<(Scene, SceneCommand)>)
    requires c.AddJoint? || c.DeleteJoint? || c.SetBody? || c.SetCollider? || c.DeleteBody? || c.DeleteCollider? || c.SetPhysicsProperty?
  {
    match c
    case AddJoint(x) =>
      (match AddExecute(s.physics.joints, x) case None => None case Some((p, x1)) => Some((WithJoints(s, p), AddJoint(x1))))
    case DeleteJoint(x) =>
      (match DeleteExecute(s.physics.joints, x) case None => None case Some((p, x1)) => Some((WithJoints(s, p), DeleteJoint(x1))))
    case SetBody(x) =>
      (match SetBodyExecute(s, x) case None => None case Some((s1, x1)) => Some((s1, SetBody(x1))))
    case SetCollider(x) =>
      (match SetColliderExecute(s, x) case None => None case Some((s1, x1)) => Some((s1, SetCollider(x1))))
    case DeleteBody(x) =>
      (match DeleteBodyExecute(s, x) case None => None case Some((s1, x1)) => Some((s1, DeleteBody(x1))))
    case DeleteCollider(x) =>
      (match DeleteColliderExecute(s, x) case None => None case Some((s1, x1)) => Some((s1, DeleteCollider(x1))))
    case SetPhysicsProperty(x) =>
      (match PhysicsPropertySwap(s.physics, x) case None => None case Some((ph, x1)) => Some((s.(physics := ph), SetPhysicsProperty(x1))))
  }

  /** `execute` of a navigation mesh command. */
  function ExecuteNavmeshCommand(s: Scene, c: SceneCommand): (r: Option<(Scene, SceneCommand)>)
    requires c.AddNavmesh? || c.DeleteNavmesh? || c.MoveNavmeshVertex? || c.AddNavmeshTriangle? || c.AddNavmeshVertex? || c.AddNavmeshEdge? || c.DeleteNavmeshVertex? || c.ConnectNavmeshEdges?
  {
    match c
    case AddNavmesh(x) =>
      (match AddExecute(s.navmeshes, x) case None => None case Some((p, x1)) => Some((s.(navmeshes := p), AddNavmesh(x1))))
    case DeleteNavmesh(x) =>
      (match DeleteExecute(s.navmeshes, x) case None => None case Some((p, x1)) => Some((s.(navmeshes := p), DeleteNavmesh(x1))))
    case MoveNavmeshVertex(x) =>
      (match MoveNavmeshVertexSwap(s, x) case None => None case Some((s1, x1)) => Some((s1, MoveNavmeshVertex(x1))))
    case AddNavmeshTriangle(mesh, x) =>
      if !IsLive(s.navmeshes, mesh) then None
      else
        (match AddExecute(NavmeshAt(s, mesh).triangles, x)
         case None => None
         case Some((p, x1)) => Some((WithTriangles(s, mesh, p), AddNavmeshTriangle(mesh, x1))))
    case AddNavmeshVertex(mesh, x) =>
      if !IsLive(s.navmeshes, mesh) then None
      else
        (match AddExecute(NavmeshAt(s, mesh).vertices, x)
         case None => None
         case Some((p, x1)) => Some((WithVertices(s, mesh, p), AddNavmeshVertex(mesh, x1))))
    case AddNavmeshEdge(x) =>
      (match AddNavmeshEdgeExecute(s, x) case None => None case Some((s1, x1)) => Some((s1, AddNavmeshEdge(x1))))
    case DeleteNavmeshVertex(x) =>
      (match DeleteNavmeshVertexExecute(s, x) case None => None case Some((s1, x1)) => Some((s1, DeleteNavmeshVertex(x1))))
    case ConnectNavmeshEdges(x) =>
      (match ConnectNavmeshEdgesExecute(s, x) case None => None case Some((s1, x1)) => Some((s1, ConnectNavmeshEdges(x1))))
  }

  /** `revert` of one command; a group reverts its commands in reverse order. */
  function Revert(s: Scene, c: SceneCommand): (r: Option<(Scene, SceneCommand)>)
    ensures c.CommandGroup? && r.Some? ==> r.value.1.CommandGroup? && |r.value.1.commands| == |c.commands|
    ensures c.ChangeSelection? ==> r.Some?
    decreases c
  {
    match c
    case CommandGroup(cs) =>
      (match Backward((y: Scene, d: SceneCommand) => if d in cs then Revert(y, d) else None, s, cs)
       case None => None
       case Some((s1, cs1)) => Some((s1, CommandGroup(cs1))))
    case _ => RevertSingle(s, c)
  }

  /** `revert` of any command but a group, by the kind of entity it edits. */
  function RevertSingle(s: Scene, c: SceneCommand): (r: Option<(Scene, SceneCommand)>)
    requires !c.CommandGroup?
    ensures c.ChangeSelection? ==> r.Some?
  {
    if c.Paste? || c.AddNode? || c.DeleteNode? || c.DeleteSubGraph? || c.ChangeSelection? || c.TransformNode? || c.LinkNodes? || c.LoadModel? then
      RevertGraphCommand(s, c)
    else if c.SetNodeProperty? || c.SetLodGroup? || c.AddLodGroupLevel? || c.RemoveLodGroupLevel? || c.AddLodObject? || c.RemoveLodObject? || c.ChangeLodRange? || c.AddParticleSystemEmitter? || c.DeleteEmitter? || c.SetEmitterProperty? then
      RevertNodeCommand(s, c)
    else if c.AddJoint? || c.DeleteJoint? || c.SetBody? || c.SetCollider? || c.DeleteBody? || c.DeleteCollider? || c.SetPhysicsProperty? then
      RevertPhysicsCommand(s, c)
    else
      RevertNavmeshCommand(s, c)
  }

  /** `revert` of a paste, scene-graph, selection or transform command. */
  function RevertGraphCommand(s: Scene, c: SceneCommand): (r: Option<(Scene, SceneCommand)>)
    requires c.Paste? || c.AddNode? || c.DeleteNode? || c.DeleteSubGraph? || c.ChangeSelection? || c.TransformNode? || c.LinkNodes? || c.LoadModel?
    ensures c.ChangeSelection? ==> r.Some?
  {
    match c
    case Paste(x) =>
      (match PasteRevert(s, x) case None => None case Some((s1, x1)) => Some((s1, Paste(x1))))
    case AddNode(x) =>
      (match AddNodeRevert(s, x) case None => None case Some((s1, x1)) => Some((s1, AddNode(x1))))
    case DeleteNode(x) =>
      (match DeleteNodeRevert(s, x) case None => None case Some((s1, x1)) => Some((s1, DeleteNode(x1))))
    case DeleteSubGraph(x) =>
      (match DeleteSubGraphRevert(s, x) case None => None case Some((s1, x1)) => Some((s1, DeleteSubGraph(x1))))
    case ChangeSelection(x) =>
      var (s1, x1) := ChangeSelectionSwap(s, x);
      Some((s1, ChangeSelection(x1)))
    case TransformNode(x) =>
      (match TransformSwap(s, x) case None => None case Some((s1, x1)) => Some((s1, TransformNode(x1))))
    case LinkNodes(x) =>
      (match LinkNodesSwap(s, x) case None => None case Some((s1, x1)) => Some((s1, LinkNodes(x1))))
    case LoadModel(x) =>
      (match LoadModelRevert(s, x) case None => None case Some((s1, x1)) => Some((s1, LoadModel(x1))))
  }

  /** `revert` of a node property, level-of-detail or emitter command. */
  function RevertNodeCommand(s: Scene, c: SceneCommand): (r: Option<(Scene, SceneCommand)>)
    requires c.SetNodeProperty? || c.SetLodGroup? || c.AddLodGroupLevel? || c.RemoveLodGroupLevel? || c.AddLodObject? || c.RemoveLodObject? || c.ChangeLodRange? || c.AddParticleSystemEmitter? || c.DeleteEmitter? || c.SetEmitterProperty?
  {
    match c
    case SetNodeProperty(x) =>
      (match NodePropertySwap(s, x) case None => None case Some((s1, x1)) => Some((s1, SetNodeProperty(x1))))
    case SetLodGroup(x) =>
      (match SetLodGroupSwap(s, x) case None => None case Some((s1, x1)) => Some((s1, SetLodGroup(x1))))
    case AddLodGroupLevel(x) =>
      (match AddLodLevelRevert(s, x) case None => None case Some(s1) => Some((s1, c)))
    case RemoveLodGroupLevel(x) =>
      (match RemoveLodLevelRevert(s, x) case None => None case Some((s1, x1)) => Some((s1, RemoveLodGroupLevel(x1))))
    case AddLodObject(x) =>
      (match AddLodObjectRevert(s, x) case None => None case Some(s1) => Some((s1, c)))
    case RemoveLodObject(x) =>
      (match RemoveLodObjectRevert(s, x) case None => None case Some(s1) => Some((s1, c)))
    case ChangeLodRange(x) =>
      (match LodRangeSwap(s, x) case None => None case Some((s1, x1)) => Some((s1, ChangeLodRange(x1))))
    case AddParticleSystemEmitter(x) =>
      (match AddEmitterRevert(s, x) case None => None case Some((s1, x1)) => Some((s1, AddParticleSystemEmitter(x1))))
    case DeleteEmitter(x) =>
      (match DeleteEmitterRevert(s, x) case None => None case Some((s1, x1)) => Some((s1, DeleteEmitter(x1))))
    case SetEmitterProperty(x) =>
      (match EmitterPropertySwap(s, x) case None => None case Some((s1, x1)) => Some((s1, SetEmitterProperty(x1))))
  }

  /** `revert` of a physics command. */
  function RevertPhysicsCommand(s: Scene, c: SceneCommand): (r: Option<(Scene, SceneCommand)>)
    requires c.AddJoint? || c.DeleteJoint? || c.SetBody? || c.SetCollider? || c.DeleteBody? || c.DeleteCollider? || c.SetPhysicsProperty?
  {
    match c
    case AddJoint(x) =>
      (match AddRevert(s.physics.joints, x) case None => None case Some((p, x1)) => Some((WithJoints(s, p), AddJoint(x1))))
    case DeleteJoint(x) =>
      (match DeleteRevert(s.physics.joints, x) case None => None case Some((p, x1)) => Some((WithJoints(s, p), DeleteJoint(x1))))
    case SetBody(x) =>
      (match SetBodyRevert(s, x) case None => None case Some((s1, x1)) => Some((s1, SetBody(x1))))
    case SetCollider(x) =>
      (match SetColliderRevert(s, x) case None => None case Some((s1, x1)) => Some((s1, SetCollider(x1))))
    case DeleteBody(x) =>
      (match DeleteBodyRevert(s, x) case None => None case Some((s1, x1)) => Some((s1, DeleteBody(x1))))
    case DeleteCollider(x) =>
      (match DeleteColliderRevert(s, x) case None => None case Some((s1, x1)) => Some((s1, DeleteCollider(x1))))
    case SetPhysicsProperty(x) =>
      (match PhysicsPropertySwap(s.physics, x) case None => None case Some((ph, x1)) => Some((s.(physics := ph), SetPhysicsProperty(x1))))
  }

  /** `revert` of a navigation mesh command. */
  function RevertNavmeshCommand(s: Scene, c: SceneCommand): (r: Option<(Scene, SceneCommand)>)
    requires c.AddNavmesh? || c.DeleteNavmesh? || c.MoveNavmeshVertex? || c.AddNavmeshTriangle? || c.AddNavmeshVertex? || c.AddNavmeshEdge? || c.DeleteNavmeshVertex? || c.ConnectNavmeshEdges?
  {
    match c
    case AddNavmesh(x) =>
      (match AddRevert(s.navmeshes, x) case None => None case Some((p, x1)) => Some((s.(navmeshes := p), AddNavmesh(x1))))
    case DeleteNavmesh(x) =>
      (match DeleteRevert(s.navmeshes, x) case None => None case Some((p, x1)) => Some((s.(navmeshes := p), DeleteNavmesh(x1))))
    case MoveNavmeshVertex(x) =>
      (match MoveNavmeshVertexSwap(s, x) case None => None case Some((s1, x1)) => Some((s1, MoveNavmeshVertex(x1))))
    case AddNavmeshTriangle(mesh, x) =>
      if !IsLive(s.navmeshes, mesh) then None
      else
        (match AddRevert(NavmeshAt(s, mesh).triangles, x)
         case None => None
         case Some((p, x1)) => Some((WithTriangles(s, mesh, p), AddNavmeshTriangle(mesh, x1))))
    case AddNavmeshVertex(mesh, x) =>
      if !IsLive(s.navmeshes, mesh) then None
      else
        (match AddRevert(NavmeshAt(s, mesh).vertices, x)
         case None => None
         case Some((p, x1)) => Some((WithVertices(s, mesh, p), AddNavmeshVertex(mesh, x1))))
    case AddNavmeshEdge(x) =>
      (match AddNavmeshEdgeRevert(s, x) case None => None case Some((s1, x1)) => Some((s1, AddNavmeshEdge(x1))))
    case DeleteNavmeshVertex(x) =>
      (match DeleteNavmeshVertexRevert(s, x) case None => None case Some((s1, x1)) => Some((s1, DeleteNavmeshVertex(x1))))
    case ConnectNavmeshEdges(x) =>
      (match ConnectNavmeshEdgesRevert(s, x) case None => None case Some((s1, x1)) => Some((s1, ConnectNavmeshEdges(x1))))
  }

  /**
   * `finalize` of one command. Commands that hold no ticket keep the trait's
   * default, which does nothing; a group finalizes its commands in list order and
   * is left empty.
   */
  function Finalize(s: Scene, c: SceneCommand): (r: Option<(Scene, SceneCommand)>)
    ensures c.CommandGroup? && r.Some? ==> r.value.1 == CommandGroup([])
    decreases c
  {
    match c
    case CommandGroup(cs) =>
      (match Drain((y: Scene, d: SceneCommand) => if d in cs then Finalize(y, d) else None, s, cs)
       case None => None
       case Some(s1) => Some((s1, CommandGroup([]))))
    case Paste(x) =>
      (match PasteFinalize(s, x) case None => None case Some((s1, x1)) => Some((s1, Paste(x1))))
    case AddNode(x) =>
      (match AddNodeFinalize(s, x) case None => None case Some((s1, x1)) => Some((s1, AddNode(x1))))
    case DeleteNode(x) =>
      (match DeleteNodeFinalize(s, x) case None => None case Some((s1, x1)) => Some((s1, DeleteNode(x1))))
    case DeleteSubGraph(x) =>
      (match DeleteSubGraphFinalize(s, x) case None => None case Some((s1, x1)) => Some((s1, DeleteSubGraph(x1))))
    case AddJoint(x) =>
      (match AddFinalize(s.physics.joints, x) case None => None case Some((p, x1)) => Some((WithJoints(s, p), AddJoint(x1))))
    case DeleteJoint(x) =>
      (match DeleteFinalize(s.physics.joints, x) case None => None case Some((p, x1)) => Some((WithJoints(s, p), DeleteJoint(x1))))
    case SetBody(x) =>
      (match SetBodyFinalize(s, x) case None => None case Some((s1, x1)) => Some((s1, SetBody(x1))))
    case SetCollider(x) =>
      (match SetColliderFinalize(s, x) case None => None case Some((s1, x1)) => Some((s1, SetCollider(x1))))
    case DeleteBody(x) =>
      (match DeleteBodyFinalize(s, x) case None => None case Some((s1, x1)) => Some((s1, DeleteBody(x1))))
    case DeleteCollider(x) =>
      (match DeleteColliderFinalize(s, x) case None => None case Some((s1, x1)) => Some((s1, DeleteCollider(x1))))
    case LoadModel(x) =>
      (match LoadModelFinalize(s, x) case None => None case Some((s1, x1)) => Some((s1, LoadModel(x1))))
    case AddNavmesh(x) =>
      (match AddFinalize(s.navmeshes, x) case None => None case Some((p, x1)) => Some((s.(navmeshes := p), AddNavmesh(x1))))
    case DeleteNavmesh(x) =>
      (match DeleteFinalize(s.navmeshes, x) case None => None case Some((p, x1)) => Some((s.(navmeshes := p), DeleteNavmesh(x1))))
    case AddNavmeshTriangle(mesh, x) =>
      if !IsLive(s.navmeshes, mesh) then None
      else
        (match AddFinalize(NavmeshAt(s, mesh).triangles, x)
         case None => None
         case Some((p, x1)) => Some((WithTriangles(s, mesh, p), AddNavmeshTriangle(mesh, x1))))
    case AddNavmeshVertex(mesh, x) =>
      if !IsLive(s.navmeshes, mesh) then None
      else
        (match AddFinalize(NavmeshAt(s, mesh).vertices, x)
         case None => None
         case Some((p, x1)) => Some((WithVertices(s, mesh, p), AddNavmeshVertex(mesh, x1))))
    case AddNavmeshEdge(x) =>
      (match AddNavmeshEdgeFinalize(s, x) case None => None case Some((s1, x1)) => Some((s1, AddNavmeshEdge(x1))))
    case DeleteNavmeshVertex(x) =>
      (match DeleteNavmeshVertexFinalize(s, x) case None => None case Some((s1, x1)) => Some((s1, DeleteNavmeshVertex(x1))))
    case ConnectNavmeshEdges(x) =>
      (match ConnectNavmeshEdgesFinalize(s, x) case None => None case Some((s1, x1)) => Some((s1, ConnectNavmeshEdges(x1))))
    case _ => Some((s, c))
  }

  // ---------------------------------------------------------------- groups as folds

  /** A group executes as the front-to-back fold of `Execute` over its commands. */
  lemma GroupExecute(s: Scene, cs: seq<SceneCommand>)
    ensures Execute(s, CommandGroup(cs)) ==
      match Forward(Execute, s, cs)
      case None => None
      case Some((s1, cs1)) => Some((s1, CommandGroup(cs1)))
  {
    ForwardAgrees((y: Scene, d: SceneCommand) => if d in cs then Execute(y, d) else None, Execute, s, cs);
  }

  /** A group reverts as the back-to-front fold of `Revert` over its commands. */
  lemma GroupRevert(s: Scene, cs: seq<SceneCommand>)
    ensures Revert(s, CommandGroup(cs)) ==
      match Backward(Revert, s, cs)
      case None => None
      case Some((s1, cs1)) => Some((s1, CommandGroup(cs1)))
  {
    BackwardAgrees((y: Scene, d: SceneCommand) => if d in cs then Revert(y, d) else None, Revert, s, cs);
  }

  /** A group finalizes as the draining fold of `Finalize` over its commands, and is left empty. */
  lemma GroupFinalize(s: Scene, cs: seq<SceneCommand>)
    ensures Finalize(s, CommandGroup(cs)) ==
      match Drain(Finalize, s, cs)
      case None => None
      case Some(s1) => Some((s1, CommandGroup([])))
  {
    DrainAgrees((y: Scene, d: SceneCommand) => if d in cs then Finalize(y, d) else None, Finalize, s, cs);
  }
}
