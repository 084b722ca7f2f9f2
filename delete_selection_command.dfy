/**
 * The `SceneCommand` that `make_delete_selection_command` returns: its steps,
 * each turned into the command the source constructs for it, in one
 * `CommandGroup`.
 */
module DeleteSelectionCommands {
  import opened Pools
  import opened Entities
  import opened SceneGraph
  import opened PhysicsWorld
  import opened Selections
  import opened SelectionCommands
  import opened GraphCommands
  import opened PhysicsCommands
  import opened PoolCommands
  import Commands
  import opened DeleteSelection

  /** The command the source builds for one step. */
  function AsSceneCommand(step: DeleteStep): Commands.SceneCommand
  {
    match step
    case ClearSelection(sel) => Commands.ChangeSelection(NewChangeSelection(NoSelection, GraphNodes(sel)))
    case DeleteCollider(h) => Commands.DeleteCollider(NewDeleteCollider(h))
    case DeleteBody(h) => Commands.DeleteBody(NewDeleteBody(h))
    case DeleteJoint(h) => Commands.DeleteJoint(NewDelete(h))
    case ResetConnectedBody(h) => Commands.SetPhysicsProperty(JointConnectedBody(h, NONE))
    case DeleteSubGraph(h) => Commands.DeleteSubGraph(NewDeleteSubGraph(h))
  }

  /** Each step's command, in order. */
  function AsSceneCommands(steps: seq<DeleteStep>): seq<Commands.SceneCommand>
  {
    if steps == [] then [] else [AsSceneCommand(steps[0])] + AsSceneCommands(steps[1..])
  }

  /** `make_delete_selection_command` as the command group it returns; `None` where it panics. */
  function DeleteSelectionCommand(g: Graph, ph: Physics, selection: Selection): Option<Commands.SceneCommand>
    requires WellLinked(g) && Valid(ph.joints)
  {
    match DeleteSelectionGroup(g, ph, selection)
    case None => None
    case Some(steps) => Some(Commands.CommandGroup(AsSceneCommands(steps)))
  }
}
