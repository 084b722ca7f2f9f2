/**
 * The mutable side of the command runtime: `SceneContext`, through which every
 * command reaches the editor scene and the engine scene, and `CommandGroup`,
 * whose three loops update its commands in place while they run against the
 * context. Each loop is proved equal to the fold over the list that
 * `CommandGroups` defines and reasons about; a panicking command stops the loop
 * and the method reports `false`.
 */
module Runtime {
  import opened Pools
  import opened Entities
  import opened SceneGraph
  import opened PhysicsWorld
  import opened Selections
  import opened DeepClones
  import opened Scenes
  import Commands
  import opened CommandGroups

  /** `SceneContext`: the scene graph, physics and navigation meshes of the engine scene, and the editor's selection and clipboard. */
  class SceneContext {
    var graph: Graph
    var physics: Physics
    var navmeshes: Pool<Navmesh>
    var selection: Selection
    var clipboard: ClipboardData
    /** The number of `SelectionChanged` messages sent so far. */
    var selectionChanged: nat

    /** Everything a command can read or change, as one value. */
    function State(): Scene
      reads this
    {
      Scene(graph, physics, navmeshes, selection, clipboard, selectionChanged)
    }

    constructor(s: Scene)
      ensures State() == s
    {
      graph, physics, navmeshes := s.graph, s.physics, s.navmeshes;
      selection, clipboard, selectionChanged := s.selection, s.clipboard, s.selectionChanged;
    }

    /** Stores the scene a command left. */
    method Update(s: Scene)
      modifies this
      ensures State() == s
    {
      graph, physics, navmeshes := s.graph, s.physics, s.navmeshes;
      selection, clipboard, selectionChanged := s.selection, s.clipboard, s.selectionChanged;
    }
  }

  /** `CommandGroup`: a list of commands run as one undoable step. */
  class CommandGroup {
    var commands: seq<Commands.SceneCommand>

    /** `From<Vec<SceneCommand>>`. */
    constructor(commands: seq<Commands.SceneCommand>)
      ensures this.commands == commands
    {
      this.commands := commands;
    }

    /** `CommandGroup::push`. */
    method Push(command: Commands.SceneCommand)
      modifies this
      ensures commands == old(commands) + [command]
    {
      commands := commands + [command];
    }

    /** `CommandGroup::is_empty`. */
    function IsEmpty(): (r: bool)
      reads this
      ensures r <==> commands == []
    {
      |commands| == 0
    }

    /**
     * `CommandGroup::execute`: each command, front to back, runs against the
     * context and is replaced by its executed self.
     */
    method Execute(ctx: SceneContext) returns (ok: bool)
      modifies this, ctx
      ensures ok <==> Forward(Commands.Execute, old(ctx.State()), old(commands)).Some?
      ensures ok ==> Forward(Commands.Execute, old(ctx.State()), old(commands)) == Some((ctx.State(), commands))
    {
      ok := ExecuteEach(ctx, Commands.Execute);
    }

    /**
     * `CommandGroup::revert`: each command, back to front, is reverted against
     * the context and replaced by its reverted self.
     */
    method Revert(ctx: SceneContext) returns (ok: bool)
      modifies this, ctx
      ensures ok <==> Backward(Commands.Revert, old(ctx.State()), old(commands)).Some?
      ensures ok ==> Backward(Commands.Revert, old(ctx.State()), old(commands)) == Some((ctx.State(), commands))
    {
      ok := RevertEach(ctx, Commands.Revert);
    }

    /**
     * `CommandGroup::finalize`: the list is drained and each command, front to
     * back, is finalized against the context.
     */
    method Finalize(ctx: SceneContext) returns (ok: bool)
      modifies this, ctx
      ensures commands == []
      ensures ok <==> Drain(Commands.Finalize, old(ctx.State()), old(commands)).Some?
      ensures ok ==> Drain(Commands.Finalize, old(ctx.State()), old(commands)) == Some(ctx.State())
    {
      ok := FinalizeEach(ctx, Commands.Finalize);
    }

    // The three loops, written for the step each one hands every command to.

    method ExecuteEach(ctx: SceneContext, step: (Scene, Commands.SceneCommand) -> Option<(Scene, Commands.SceneCommand)>) returns (ok: bool)
      modifies this, ctx
      ensures ok <==> Forward(step, old(ctx.State()), old(commands)).Some?
      ensures ok ==> Forward(step, old(ctx.State()), old(commands)) == Some((ctx.State(), commands))
    {
      ghost var s0, cs0 := ctx.State(), commands;
      var i := 0;
      while i < |commands|
        invariant 0 <= i <= |commands| == |cs0|
        invariant commands[i..] == cs0[i..]
        invariant Forward(step, s0, cs0[..i]) == Some((ctx.State(), commands[..i]))
      {
        ForwardAppend(step, s0, cs0[..i], [cs0[i]]);
        assert cs0[..i + 1] == cs0[..i] + [cs0[i]];
        assert [cs0[i]][1..] == [];
        match step(ctx.State(), commands[i])
        case None =>
          ForwardAppend(step, s0, cs0[..i + 1], cs0[i + 1..]);
          assert cs0[..i + 1] + cs0[i + 1..] == cs0;
          return false;
        case Some((s1, c1)) =>
          assert Forward(step, s1, [cs0[i]][1..]) == Some((s1, []));
          assert Forward(step, ctx.State(), [cs0[i]]) == Some((s1, [c1] + []));
          assert commands[..i] + ([c1] + []) == commands[i := c1][..i + 1];
          ctx.Update(s1);
          commands := commands[i := c1];
          i := i + 1;
      }
      assert cs0[..i] == cs0 && commands[..i] == commands;
      return true;
    }

    method RevertEach(ctx: SceneContext, step: (Scene, Commands.SceneCommand) -> Option<(Scene, Commands.SceneCommand)>) returns (ok: bool)
      modifies this, ctx
      ensures ok <==> Backward(step, old(ctx.State()), old(commands)).Some?
      ensures ok ==> Backward(step, old(ctx.State()), old(commands)) == Some((ctx.State(), commands))
    {
      ghost var s0, cs0 := ctx.State(), commands;
      var i := |commands|;
      while i > 0
        invariant 0 <= i <= |commands| == |cs0|
        invariant commands[..i] == cs0[..i]
        invariant Backward(step, s0, cs0[i..]) == Some((ctx.State(), commands[i..]))
      {
        BackwardPeel(step, s0, cs0, i, ctx.State(), commands[i..]);
        var next := step(ctx.State(), commands[i - 1]);
        if next.None? {
          BackwardSuffixPanics(step, s0, cs0, i - 1);
          return false;
        }
        var (s1, c1) := next.value;
        assert [c1] + commands[i..] == commands[i - 1 := c1][i - 1..];
        ctx.Update(s1);
        commands := commands[i - 1 := c1];
        i := i - 1;
      }
      assert cs0[0..] == cs0 && commands[0..] == commands;
      return true;
    }

    method FinalizeEach(ctx: SceneContext, step: (Scene, Commands.SceneCommand) -> Option<(Scene, Commands.SceneCommand)>) returns (ok: bool)
      modifies this, ctx
      ensures commands == []
      ensures ok <==> Drain(step, old(ctx.State()), old(commands)).Some?
      ensures ok ==> Drain(step, old(ctx.State()), old(commands)) == Some(ctx.State())
    {
      var drained := commands;
      commands := [];
      var i := 0;
      while i < |drained|
        invariant 0 <= i <= |drained| && commands == []
        invariant Drain(step, old(ctx.State()), drained) == Drain(step, ctx.State(), drained[i..])
      {
        assert drained[i..][1..] == drained[i + 1..];
        match step(ctx.State(), drained[i])
        case None =>
          return false;
        case Some((s1, _)) =>
          ctx.Update(s1);
          i := i + 1;
      }
      return true;
    }
  }
}
