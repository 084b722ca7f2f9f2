/**
 * The commands that edit one node in place: its transform (mirrored to the
 * rigid body bound to it), a property reached through a getter and setter, its
 * level-of-detail group and levels, and a particle system's emitters. Most of
 * them swap the stored value with the node's, so `execute` and `revert` are the
 * same step.
 */
module NodeCommands {
  import opened Pools
  import opened Entities
  import opened SceneGraph
  import opened PhysicsWorld
  import opened Scenes

  // ---------------------------------------------------------------- move, scale, rotate

  /** Which part of the local transform a command edits. */
  datatype TransformPart = MovePart | ScalePart | RotatePart

  /** The node property a transform command writes. */
  function TransformProp(k: TransformPart): NodeProp
  {
    match k
    case MovePart => Position
    case ScalePart => Scale
    case RotatePart => Rotation
  }

  /** The body property the command mirrors the value to, if any (scaling has none). */
  function MirroredBodyProp(k: TransformPart): Option<BodyProp>
  {
    match k
    case MovePart => Some(BodyPosition)
    case ScalePart => None
    case RotatePart => Some(BodyRotation)
  }

  /** `MoveNodeCommand`, `ScaleNodeCommand`, `RotateNodeCommand`: the node, the old and the new value. */
  datatype TransformState = TransformState(part: TransformPart, node: Handle, oldValue: FieldValue, newValue: FieldValue)

  /**
   * `swap` then `set_*`, which is both `execute` and `revert`: writes the command's
   * new value to the node (and to its bound body for a move or a rotation) and
   * exchanges the old and new values. Indexing a dead node or a dead bound body
   * panics.
   */
  function TransformSwap(s: Scene, c: TransformState): (r: Option<(Scene, TransformState)>)
    ensures r.Some? <==> IsLive(s.graph.pool, c.node) && (MirroredBody(s, c).Some? ==> IsLive(s.physics.bodies, MirroredBody(s, c).value.1))
    ensures r.Some? ==> var (s1, c1) := r.value;
      c1 == TransformState(c.part, c.node, c.newValue, c.oldValue)
      && s1 == WithNode(s, c.node, Get(s.graph.pool, c.node).(props := Get(s.graph.pool, c.node).props[TransformProp(c.part) := c.newValue])).(physics := s1.physics)
    ensures r.Some? ==>
      r.value.0.physics ==
        match MirroredBody(s, c)
        case None => s.physics
        case Some((bp, body)) =>
          var b := Get(s.physics.bodies, body);
          s.physics.(bodies := Set(s.physics.bodies, body, b.(props := b.props[bp := c.newValue])))
  {
    if !IsLive(s.graph.pool, c.node) then None
    else
      var n := Get(s.graph.pool, c.node);
      var s1 := WithNode(s, c.node, n.(props := n.props[TransformProp(c.part) := c.newValue]));
      var c1 := TransformState(c.part, c.node, c.newValue, c.oldValue);
      match (MirroredBodyProp(c.part), ValueOf(s.physics.binder, c.node))
      case (Some(bp), Some(body)) =>
        if !IsLive(s.physics.bodies, body) then None
        else
          var b := Get(s.physics.bodies, body);
          var bodies := Set(s.physics.bodies, body, b.(props := b.props[bp := c.newValue]));
          Some((s1.(physics := s.physics.(bodies := bodies)), c1))
      case _ => Some((s1, c1))
  }

  /** The body property a move or a rotation also writes, and the body bound to the node; `None` for a scale or an unbound node. */
  function MirroredBody(s: Scene, c: TransformState): Option<(BodyProp, Handle)>
  {
    match (MirroredBodyProp(c.part), ValueOf(s.physics.binder, c.node))
    case (Some(bp), Some(body)) => Some((bp, body))
    case _ => None
  }

  /**
   * A transform command undone: it is back to its original fields, and the node and
   * its bound body hold the command's old value. When that old value is what the
   * node (and the body) held before, the whole scene is restored.
   */
  lemma TransformUndo(s: Scene, c: TransformState)
    requires TransformSwap(s, c).Some?
    ensures var (s1, c1) := TransformSwap(s, c).value;
      TransformSwap(s1, c1).Some?
      && var (s2, c2) := TransformSwap(s1, c1).value;
      c2 == c
      && IsLive(s2.graph.pool, c.node) && Get(s2.graph.pool, c.node).props[TransformProp(c.part)] == c.oldValue
      && ((TransformProp(c.part) in Get(s.graph.pool, c.node).props
          && Get(s.graph.pool, c.node).props[TransformProp(c.part)] == c.oldValue
          && BodyHolds(s, c, c.oldValue))
        ==> s2 == s)
  {
    var (s1, c1) := TransformSwap(s, c).value;
    var n := Get(s.graph.pool, c.node);
    var prop := TransformProp(c.part);
    var (s2, c2) := TransformSwap(s1, c1).value;
    WithNodeTwice(s, c.node, n.(props := n.props[prop := c.newValue]), n.(props := n.props[prop := c.oldValue]));
    if prop in n.props && n.props[prop] == c.oldValue && BodyHolds(s, c, c.oldValue) {
      assert n.props[prop := c.oldValue] == n.props;
      WithNodeSame(s, c.node);
      match (MirroredBodyProp(c.part), ValueOf(s.physics.binder, c.node))
      case (Some(bp), Some(body)) =>
        var b := Get(s.physics.bodies, body);
        var b1 := b.(props := b.props[bp := c.newValue]);
        assert s1.physics.bodies == Set(s.physics.bodies, body, b1);
        assert b1.(props := b1.props[bp := c.oldValue]) == b;
        assert s2.physics.bodies == Set(s1.physics.bodies, body, b);
        SetTwice(s.physics.bodies, body, b1, b);
        SetSame(s.physics.bodies, body);
        assert s2.physics == s.physics;
      case _ =>
        var n1 := n.(props := n.props[prop := c.newValue]);
        assert s1 == WithNode(s, c.node, n1);
        assert Get(s1.graph.pool, c.node) == n1;
        assert s2 == WithNode(s1, c.node, n1.(props := n1.props[prop := c.oldValue]));
        assert n1.props[prop := c.oldValue] == n.props;
    }
  }

  /** The body bound to the node, if the command mirrors to it, holds `v`. */
  ghost predicate BodyHolds(s: Scene, c: TransformState, v: FieldValue)
  {
    match (MirroredBodyProp(c.part), ValueOf(s.physics.binder, c.node))
    case (Some(bp), Some(body)) =>
      IsLive(s.physics.bodies, body) && bp in Get(s.physics.bodies, body).props
      && Get(s.physics.bodies, body).props[bp] == v
    case _ => true
  }

  // ---------------------------------------------------------------- node properties

  /**
   * The commands generated by `define_node_command!` with `get_set_swap!`: the
   * node, the property and the value to swap in.
   */
  datatype NodePropertyState = NodePropertyState(node: Handle, prop: NodeProp, value: FieldValue)

  /**
   * `swap`, both `execute` and `revert`: stores the command's value in the node and
   * keeps the node's previous value. A dead node panics, and so does a node without
   * the property (`as_light_mut` and the other kind casts).
   */
  function NodePropertySwap(s: Scene, c: NodePropertyState): (r: Option<(Scene, NodePropertyState)>)
    ensures r.Some? <==> IsLive(s.graph.pool, c.node) && c.prop in Get(s.graph.pool, c.node).props
    ensures r.Some? ==> var (s1, c1) := r.value;
      c1 == c.(value := Get(s.graph.pool, c.node).props[c.prop])
      && s1 == WithNode(s, c.node, Get(s.graph.pool, c.node).(props := Get(s.graph.pool, c.node).props[c.prop := c.value]))
  {
    if !IsLive(s.graph.pool, c.node) then None
    else
      var n := Get(s.graph.pool, c.node);
      if c.prop !in n.props then None
      else Some((WithNode(s, c.node, n.(props := n.props[c.prop := c.value])), c.(value := n.props[c.prop])))
  }

  /** A property swap is its own inverse: undo restores the scene and the command exactly. */
  lemma NodePropertyUndo(s: Scene, c: NodePropertyState)
    requires NodePropertySwap(s, c).Some?
    ensures var (s1, c1) := NodePropertySwap(s, c).value;
      NodePropertySwap(s1, c1) == Some((s, c))
  {
    var n := Get(s.graph.pool, c.node);
    var (s1, c1) := NodePropertySwap(s, c).value;
    assert n.props[c.prop := c.value][c.prop := n.props[c.prop]] == n.props;
    WithNodeTwice(s, c.node, n.(props := n.props[c.prop := c.value]), n);
    WithNodeSame(s, c.node);
  }

  /** `SetLodGroupCommand`: the node and the group to swap in. */
  datatype SetLodGroupState = SetLodGroupState(node: Handle, value: Option<LodGroup>)

  /** `swap` with `take_lod_group` and `set_lod_group`. */
  function SetLodGroupSwap(s: Scene, c: SetLodGroupState): (r: Option<(Scene, SetLodGroupState)>)
    ensures r.Some? <==> IsLive(s.graph.pool, c.node)
    ensures r.Some? ==> var (s1, c1) := r.value;
      c1 == c.(value := Get(s.graph.pool, c.node).lodGroup)
      && s1 == WithNode(s, c.node, Get(s.graph.pool, c.node).(lodGroup := c.value))
  {
    if !IsLive(s.graph.pool, c.node) then None
    else
      var n := Get(s.graph.pool, c.node);
      Some((WithNode(s, c.node, n.(lodGroup := c.value)), c.(value := n.lodGroup)))
  }

  /** Swapping the group twice restores the scene and the command exactly. */
  lemma SetLodGroupUndo(s: Scene, c: SetLodGroupState)
    requires SetLodGroupSwap(s, c).Some?
    ensures var (s1, c1) := SetLodGroupSwap(s, c).value;
      SetLodGroupSwap(s1, c1) == Some((s, c))
  {
    var n := Get(s.graph.pool, c.node);
    WithNodeTwice(s, c.node, n.(lodGroup := c.value), n);
    WithNodeSame(s, c.node);
  }

  // ---------------------------------------------------------------- levels of detail

  /** The levels of a live node's group; `None` when the node is dead or has no group (`unwrap` panics). */
  function LevelsOf(s: Scene, h: Handle): (r: Option<seq<LevelOfDetail>>)
    ensures r.Some? <==> IsLive(s.graph.pool, h) && Get(s.graph.pool, h).lodGroup.Some?
    ensures r.Some? ==> r.value == Get(s.graph.pool, h).lodGroup.value.levels
  {
    if IsLive(s.graph.pool, h) && Get(s.graph.pool, h).lodGroup.Some? then
      Some(Get(s.graph.pool, h).lodGroup.value.levels)
    else None
  }

  /** Replaces the levels of a node's group. */
  function WithLevels(s: Scene, h: Handle, levels: seq<LevelOfDetail>): (r: Scene)
    requires LevelsOf(s, h).Some?
    ensures LevelsOf(r, h) == Some(levels)
    ensures r == WithNode(s, h, Get(s.graph.pool, h).(lodGroup := Some(LodGroup(levels))))
  {
    WithNode(s, h, Get(s.graph.pool, h).(lodGroup := Some(LodGroup(levels))))
  }

  /** Writing back a node's own levels leaves the scene as it was. */
  lemma WithLevelsSame(s: Scene, h: Handle)
    requires LevelsOf(s, h).Some?
    ensures WithLevels(s, h, LevelsOf(s, h).value) == s
  {
    WithNodeSame(s, h);
  }

  /** Two writes to a node's levels: the second wins. */
  lemma WithLevelsTwice(s: Scene, h: Handle, a: seq<LevelOfDetail>, b: seq<LevelOfDetail>)
    requires LevelsOf(s, h).Some?
    ensures WithLevels(WithLevels(s, h, a), h, b) == WithLevels(s, h, b)
  {
    var n := Get(s.graph.pool, h);
    WithNodeTwice(s, h, n.(lodGroup := Some(LodGroup(a))), n.(lodGroup := Some(LodGroup(b))));
  }

  /** `AddLodGroupLevelCommand`: the node and the level it appends. */
  datatype AddLodLevelState = AddLodLevelState(node: Handle, level: LevelOfDetail)

  /** `execute`: appends the level. */
  function AddLodLevelExecute(s: Scene, c: AddLodLevelState): (r: Option<Scene>)
    ensures r.Some? <==> LevelsOf(s, c.node).Some?
    ensures r.Some? ==> LevelsOf(r.value, c.node) == Some(LevelsOf(s, c.node).value + [c.level])
  {
    match LevelsOf(s, c.node)
    case None => None
    case Some(levels) => Some(WithLevels(s, c.node, levels + [c.level]))
  }

  /** `revert`: pops the last level; popping an empty list does nothing. */
  function AddLodLevelRevert(s: Scene, c: AddLodLevelState): (r: Option<Scene>)
    ensures r.Some? <==> LevelsOf(s, c.node).Some?
    ensures r.Some? ==> var levels := LevelsOf(s, c.node).value;
      LevelsOf(r.value, c.node) == Some(if levels == [] then [] else levels[..|levels| - 1])
  {
    match LevelsOf(s, c.node)
    case None => None
    case Some(levels) => Some(WithLevels(s, c.node, if levels == [] then [] else levels[..|levels| - 1]))
  }

  /** Undo of an appended level restores the scene exactly. */
  lemma AddLodLevelUndo(s: Scene, c: AddLodLevelState)
    requires AddLodLevelExecute(s, c).Some?
    ensures AddLodLevelRevert(AddLodLevelExecute(s, c).value, c) == Some(s)
  {
    var levels := LevelsOf(s, c.node).value;
    assert (levels + [c.level])[..|levels|] == levels;
    WithLevelsTwice(s, c.node, levels + [c.level], levels);
    WithLevelsSame(s, c.node);
  }

  /** `RemoveLodGroupLevelCommand`: the node, the index, and the removed level while executed. */
  datatype RemoveLodLevelState = RemoveLodLevelState(node: Handle, level: Option<LevelOfDetail>, index: nat)

  /** `execute`: removes the level at the index (out of range panics) and keeps it. */
  function RemoveLodLevelExecute(s: Scene, c: RemoveLodLevelState): (r: Option<(Scene, RemoveLodLevelState)>)
    ensures r.Some? <==> LevelsOf(s, c.node).Some? && c.index < |LevelsOf(s, c.node).value|
    ensures r.Some? ==> var levels := LevelsOf(s, c.node).value;
      r.value.1 == c.(level := Some(levels[c.index]))
      && LevelsOf(r.value.0, c.node) == Some(RemoveAt(levels, c.index))
  {
    match LevelsOf(s, c.node)
    case None => None
    case Some(levels) =>
      if c.index >= |levels| then None
      else Some((WithLevels(s, c.node, RemoveAt(levels, c.index)), c.(level := Some(levels[c.index]))))
  }

  /** `revert`: puts the level back: appended to an empty list, else inserted at the index. */
  function RemoveLodLevelRevert(s: Scene, c: RemoveLodLevelState): (r: Option<(Scene, RemoveLodLevelState)>)
    ensures r.Some? <==>
      LevelsOf(s, c.node).Some? && c.level.Some?
      && (LevelsOf(s, c.node).value == [] || c.index <= |LevelsOf(s, c.node).value|)
    ensures r.Some? ==> r.value.1 == c.(level := None)
    ensures r.Some? ==> var levels := LevelsOf(s, c.node).value;
      LevelsOf(r.value.0, c.node) == Some(if levels == [] then [c.level.value] else InsertAt(levels, c.index, c.level.value))
  {
    match LevelsOf(s, c.node)
    case None => None
    case Some(levels) =>
      match c.level
      case None => None
      case Some(level) =>
        if levels == [] then Some((WithLevels(s, c.node, [level]), c.(level := None)))
        else if c.index > |levels| then None
        else Some((WithLevels(s, c.node, InsertAt(levels, c.index, level)), c.(level := None)))
  }

  /** Undo of a level removal restores the scene and the command exactly. */
  lemma RemoveLodLevelUndo(s: Scene, c: RemoveLodLevelState)
    requires RemoveLodLevelExecute(s, c).Some? && c.level.None?
    ensures var (s1, c1) := RemoveLodLevelExecute(s, c).value;
      RemoveLodLevelRevert(s1, c1) == Some((s, c))
  {
    var levels := LevelsOf(s, c.node).value;
    var rest := RemoveAt(levels, c.index);
    InsertRemoved(levels, c.index);
    if rest == [] {
      assert [levels[c.index]] == levels;
    }
    WithLevelsTwice(s, c.node, rest, levels);
    WithLevelsSame(s, c.node);
  }

  /** The objects of level `lod` of a node's group; `None` when indexing panics. */
  function ObjectsOf(s: Scene, h: Handle, lod: nat): (r: Option<seq<Handle>>)
    ensures r.Some? <==> LevelsOf(s, h).Some? && lod < |LevelsOf(s, h).value|
    ensures r.Some? ==> r.value == LevelsOf(s, h).value[lod].objects
  {
    match LevelsOf(s, h)
    case None => None
    case Some(levels) => if lod < |levels| then Some(levels[lod].objects) else None
  }

  /** Replaces the objects of one level. */
  function WithObjects(s: Scene, h: Handle, lod: nat, objects: seq<Handle>): (r: Scene)
    requires ObjectsOf(s, h, lod).Some?
    ensures ObjectsOf(r, h, lod) == Some(objects)
    ensures var levels := LevelsOf(s, h).value; r == WithLevels(s, h, levels[lod := levels[lod].(objects := objects)])
  {
    var levels := LevelsOf(s, h).value;
    WithLevels(s, h, levels[lod := levels[lod].(objects := objects)])
  }

  /** Writing a level's objects and then its old objects restores the scene. */
  lemma WithObjectsRestore(s: Scene, h: Handle, lod: nat, objects: seq<Handle>)
    requires ObjectsOf(s, h, lod).Some?
    ensures WithObjects(WithObjects(s, h, lod, objects), h, lod, ObjectsOf(s, h, lod).value) == s
  {
    var levels := LevelsOf(s, h).value;
    var levels1 := levels[lod := levels[lod].(objects := objects)];
    assert levels1[lod := levels1[lod].(objects := levels[lod].objects)] == levels;
    WithLevelsTwice(s, h, levels1, levels);
    WithLevelsSame(s, h);
  }

  /** `AddLodObjectCommand`: the node, the level, the object, and where it was appended. */
  datatype AddLodObjectState = AddLodObjectState(node: Handle, lod: nat, lodObject: Handle, objectIndex: nat)

  /** `execute`: remembers the current length and appends the object. */
  function AddLodObjectExecute(s: Scene, c: AddLodObjectState): (r: Option<(Scene, AddLodObjectState)>)
    ensures r.Some? <==> ObjectsOf(s, c.node, c.lod).Some?
    ensures r.Some? ==> var objects := ObjectsOf(s, c.node, c.lod).value;
      r.value.1 == c.(objectIndex := |objects|)
      && ObjectsOf(r.value.0, c.node, c.lod) == Some(objects + [c.lodObject])
  {
    match ObjectsOf(s, c.node, c.lod)
    case None => None
    case Some(objects) =>
      Some((WithObjects(s, c.node, c.lod, objects + [c.lodObject]), c.(objectIndex := |objects|)))
  }

  /** `revert`: removes the object at the remembered index (out of range panics). */
  function AddLodObjectRevert(s: Scene, c: AddLodObjectState): (r: Option<Scene>)
    ensures r.Some? <==> ObjectsOf(s, c.node, c.lod).Some? && c.objectIndex < |ObjectsOf(s, c.node, c.lod).value|
    ensures r.Some? ==> ObjectsOf(r.value, c.node, c.lod) == Some(RemoveAt(ObjectsOf(s, c.node, c.lod).value, c.objectIndex))
  {
    match ObjectsOf(s, c.node, c.lod)
    case None => None
    case Some(objects) =>
      if c.objectIndex >= |objects| then None
      else Some(WithObjects(s, c.node, c.lod, RemoveAt(objects, c.objectIndex)))
  }

  /** Undo of an added object restores the scene exactly. */
  lemma AddLodObjectUndo(s: Scene, c: AddLodObjectState)
    requires AddLodObjectExecute(s, c).Some?
    ensures var (s1, c1) := AddLodObjectExecute(s, c).value;
      AddLodObjectRevert(s1, c1) == Some(s)
  {
    var objects := ObjectsOf(s, c.node, c.lod).value;
    var (s1, c1) := AddLodObjectExecute(s, c).value;
    RemoveInserted(objects, |objects|, c.lodObject);
    assert InsertAt(objects, |objects|, c.lodObject) == objects + [c.lodObject];
    assert ObjectsOf(s1, c.node, c.lod).Some?;
    assert WithObjects(s1, c.node, c.lod, objects) == s by {
      WithObjectsRestore(s, c.node, c.lod, objects + [c.lodObject]);
    }
  }

  /** `RemoveLodObjectCommand`: the node, the level, the index, and the removed object. */
  datatype RemoveLodObjectState = RemoveLodObjectState(node: Handle, lod: nat, lodObject: Handle, objectIndex: nat)

  /** `execute`: removes the object at the index (out of range panics) and keeps it. */
  function RemoveLodObjectExecute(s: Scene, c: RemoveLodObjectState): (r: Option<(Scene, RemoveLodObjectState)>)
    ensures r.Some? <==> ObjectsOf(s, c.node, c.lod).Some? && c.objectIndex < |ObjectsOf(s, c.node, c.lod).value|
    ensures r.Some? ==> var objects := ObjectsOf(s, c.node, c.lod).value;
      r.value.1 == c.(lodObject := objects[c.objectIndex])
      && ObjectsOf(r.value.0, c.node, c.lod) == Some(RemoveAt(objects, c.objectIndex))
  {
    match ObjectsOf(s, c.node, c.lod)
    case None => None
    case Some(objects) =>
      if c.objectIndex >= |objects| then None
      else Some((WithObjects(s, c.node, c.lod, RemoveAt(objects, c.objectIndex)), c.(lodObject := objects[c.objectIndex])))
  }

  /** `revert`: appends the object to an empty list, else inserts it at the index. */
  function RemoveLodObjectRevert(s: Scene, c: RemoveLodObjectState): (r: Option<Scene>)
    ensures r.Some? <==>
      ObjectsOf(s, c.node, c.lod).Some?
      && (ObjectsOf(s, c.node, c.lod).value == [] || c.objectIndex <= |ObjectsOf(s, c.node, c.lod).value|)
    ensures r.Some? ==> var objects := ObjectsOf(s, c.node, c.lod).value;
      ObjectsOf(r.value, c.node, c.lod) == Some(if objects == [] then [c.lodObject] else InsertAt(objects, c.objectIndex, c.lodObject))
  {
    match ObjectsOf(s, c.node, c.lod)
    case None => None
    case Some(objects) =>
      if objects == [] then Some(WithObjects(s, c.node, c.lod, [c.lodObject]))
      else if c.objectIndex > |objects| then None
      else Some(WithObjects(s, c.node, c.lod, InsertAt(objects, c.objectIndex, c.lodObject)))
  }

  /** Undo of an object removal restores the scene exactly. */
  lemma RemoveLodObjectUndo(s: Scene, c: RemoveLodObjectState)
    requires RemoveLodObjectExecute(s, c).Some?
    ensures var (s1, c1) := RemoveLodObjectExecute(s, c).value;
      RemoveLodObjectRevert(s1, c1) == Some(s)
  {
    var objects := ObjectsOf(s, c.node, c.lod).value;
    var rest := RemoveAt(objects, c.objectIndex);
    var (s1, c1) := RemoveLodObjectExecute(s, c).value;
    InsertRemoved(objects, c.objectIndex);
    if rest == [] {
      assert [objects[c.objectIndex]] == objects;
    }
    assert WithObjects(s1, c.node, c.lod, objects) == s by {
      WithObjectsRestore(s, c.node, c.lod, rest);
    }
  }

  /** Which end of a level's distance range a command edits. */
  datatype RangeSide = RangeBegin | RangeEnd

  /** `ChangeLodRangeBeginCommand` and `ChangeLodRangeEndCommand`: node, level and value to swap in. */
  datatype LodRangeState = LodRangeState(side: RangeSide, node: Handle, lod: nat, value: FieldValue)

  /** `swap`: stores the value at that end of the level's range and keeps the previous one. */
  function LodRangeSwap(s: Scene, c: LodRangeState): (r: Option<(Scene, LodRangeState)>)
    ensures r.Some? <==> LevelsOf(s, c.node).Some? && c.lod < |LevelsOf(s, c.node).value|
    ensures r.Some? ==> var level := LevelsOf(s, c.node).value[c.lod];
      r.value.1 == c.(value := if c.side == RangeBegin then level.begin else level.end)
      && LevelsOf(r.value.0, c.node) == Some(LevelsOf(s, c.node).value[c.lod :=
        if c.side == RangeBegin then level.(begin := c.value) else level.(end := c.value)])
  {
    match LevelsOf(s, c.node)
    case None => None
    case Some(levels) =>
      if c.lod >= |levels| then None
      else
        var level := levels[c.lod];
        match c.side
        case RangeBegin => Some((WithLevels(s, c.node, levels[c.lod := level.(begin := c.value)]), c.(value := level.begin)))
        case RangeEnd => Some((WithLevels(s, c.node, levels[c.lod := level.(end := c.value)]), c.(value := level.end)))
  }

  /** A range swap is its own inverse: undo restores the scene and the command exactly. */
  lemma LodRangeUndo(s: Scene, c: LodRangeState)
    requires LodRangeSwap(s, c).Some?
    ensures var (s1, c1) := LodRangeSwap(s, c).value;
      LodRangeSwap(s1, c1) == Some((s, c))
  {
    var levels := LevelsOf(s, c.node).value;
    var level := levels[c.lod];
    var (s1, c1) := LodRangeSwap(s, c).value;
    var levels1 := LevelsOf(s1, c.node).value;
    assert levels1[c.lod := if c.side == RangeBegin then levels1[c.lod].(begin := c1.value) else levels1[c.lod].(end := c1.value)] == levels;
    WithLevelsTwice(s, c.node, levels1, levels);
    WithLevelsSame(s, c.node);
  }

  // ---------------------------------------------------------------- particle system emitters

  /** The emitters of a live particle system; `None` when the node is dead or not a particle system. */
  function EmittersOf(s: Scene, h: Handle): (r: Option<seq<Emitter>>)
    ensures r.Some? <==> IsLive(s.graph.pool, h) && Get(s.graph.pool, h).emitters.Some?
    ensures r.Some? ==> r.value == Get(s.graph.pool, h).emitters.value
  {
    if IsLive(s.graph.pool, h) && Get(s.graph.pool, h).emitters.Some? then Some(Get(s.graph.pool, h).emitters.value)
    else None
  }

  /** Replaces the emitters of a particle system. */
  function WithEmitters(s: Scene, h: Handle, es: seq<Emitter>): (r: Scene)
    requires EmittersOf(s, h).Some?
    ensures EmittersOf(r, h) == Some(es)
    ensures r == WithNode(s, h, Get(s.graph.pool, h).(emitters := Some(es)))
  {
    WithNode(s, h, Get(s.graph.pool, h).(emitters := Some(es)))
  }

  /** Writing emitters and then the old ones back restores the scene. */
  lemma WithEmittersRestore(s: Scene, h: Handle, es: seq<Emitter>)
    requires EmittersOf(s, h).Some?
    ensures WithEmitters(WithEmitters(s, h, es), h, EmittersOf(s, h).value) == s
  {
    var n := Get(s.graph.pool, h);
    WithNodeTwice(s, h, n.(emitters := Some(es)), n);
    WithNodeSame(s, h);
  }

  /** `AddParticleSystemEmitterCommand`: the particle system, and the emitter while not in it. */
  datatype AddEmitterState = AddEmitterState(particleSystem: Handle, emitter: Option<Emitter>)

  /** `execute`: appends the emitter (unwrapped). */
  function AddEmitterExecute(s: Scene, c: AddEmitterState): (r: Option<(Scene, AddEmitterState)>)
    ensures r.Some? <==> EmittersOf(s, c.particleSystem).Some? && c.emitter.Some?
    ensures r.Some? ==>
      r.value.1 == c.(emitter := None)
      && EmittersOf(r.value.0, c.particleSystem) == Some(EmittersOf(s, c.particleSystem).value + [c.emitter.value])
  {
    match EmittersOf(s, c.particleSystem)
    case None => None
    case Some(es) =>
      match c.emitter
      case None => None
      case Some(e) => Some((WithEmitters(s, c.particleSystem, es + [e]), c.(emitter := None)))
  }

  /** `revert`: pops the last emitter back into the command; popping an empty list panics. */
  function AddEmitterRevert(s: Scene, c: AddEmitterState): (r: Option<(Scene, AddEmitterState)>)
    ensures r.Some? <==> EmittersOf(s, c.particleSystem).Some? && EmittersOf(s, c.particleSystem).value != []
    ensures r.Some? ==> var es := EmittersOf(s, c.particleSystem).value;
      r.value.1 == c.(emitter := Some(es[|es| - 1]))
      && EmittersOf(r.value.0, c.particleSystem) == Some(es[..|es| - 1])
  {
    match EmittersOf(s, c.particleSystem)
    case None => None
    case Some(es) =>
      if es == [] then None
      else Some((WithEmitters(s, c.particleSystem, es[..|es| - 1]), c.(emitter := Some(es[|es| - 1]))))
  }

  /** Undo of an added emitter restores the scene and the command exactly. */
  lemma AddEmitterUndo(s: Scene, c: AddEmitterState)
    requires AddEmitterExecute(s, c).Some?
    ensures var (s1, c1) := AddEmitterExecute(s, c).value;
      AddEmitterRevert(s1, c1) == Some((s, c))
  {
    var es := EmittersOf(s, c.particleSystem).value;
    assert (es + [c.emitter.value])[..|es|] == es;
    WithEmittersRestore(s, c.particleSystem, es + [c.emitter.value]);
  }

  /** `DeleteEmitterCommand`: the particle system, the index, and the removed emitter. */
  datatype DeleteEmitterState = DeleteEmitterState(particleSystem: Handle, emitter: Option<Emitter>, index: nat)

  /** `execute`: removes the emitter at the index (out of range panics) and keeps it. */
  function DeleteEmitterExecute(s: Scene, c: DeleteEmitterState): (r: Option<(Scene, DeleteEmitterState)>)
    ensures r.Some? <==> EmittersOf(s, c.particleSystem).Some? && c.index < |EmittersOf(s, c.particleSystem).value|
    ensures r.Some? ==> var es := EmittersOf(s, c.particleSystem).value;
      r.value.1 == c.(emitter := Some(es[c.index]))
      && EmittersOf(r.value.0, c.particleSystem) == Some(RemoveAt(es, c.index))
  {
    match EmittersOf(s, c.particleSystem)
    case None => None
    case Some(es) =>
      if c.index >= |es| then None
      else Some((WithEmitters(s, c.particleSystem, RemoveAt(es, c.index)), c.(emitter := Some(es[c.index]))))
  }

  /**
   * `revert`, as the source writes it: index 0 appends the emitter at the END of the
   * list; any other index inserts it there (past the end panics).
   */
  function DeleteEmitterRevert(s: Scene, c: DeleteEmitterState): (r: Option<(Scene, DeleteEmitterState)>)
    ensures r.Some? <==>
      EmittersOf(s, c.particleSystem).Some? && c.emitter.Some?
      && (c.index == 0 || c.index <= |EmittersOf(s, c.particleSystem).value|)
    ensures r.Some? ==> r.value.1 == c.(emitter := None)
    ensures r.Some? ==> var es := EmittersOf(s, c.particleSystem).value;
      EmittersOf(r.value.0, c.particleSystem) == Some(if c.index == 0 then es + [c.emitter.value] else InsertAt(es, c.index, c.emitter.value))
  {
    match EmittersOf(s, c.particleSystem)
    case None => None
    case Some(es) =>
      match c.emitter
      case None => None
      case Some(e) =>
        if c.index == 0 then Some((WithEmitters(s, c.particleSystem, es + [e]), c.(emitter := None)))
        else if c.index > |es| then None
        else Some((WithEmitters(s, c.particleSystem, InsertAt(es, c.index, e)), c.(emitter := None)))
  }

  /**
   * Undo of an emitter deletion: for any index but 0 it restores the scene and the
   * command exactly; for index 0 the first emitter comes back as the last one.
   */
  lemma DeleteEmitterUndo(s: Scene, c: DeleteEmitterState)
    requires DeleteEmitterExecute(s, c).Some? && c.emitter.None?
    ensures var (s1, c1) := DeleteEmitterExecute(s, c).value;
      var es := EmittersOf(s, c.particleSystem).value;
      DeleteEmitterRevert(s1, c1).Some? && DeleteEmitterRevert(s1, c1).value.1 == c
      && (c.index != 0 ==> DeleteEmitterRevert(s1, c1).value.0 == s)
      && (c.index == 0 ==> EmittersOf(DeleteEmitterRevert(s1, c1).value.0, c.particleSystem) == Some(es[1..] + [es[0]]))
  {
    var es := EmittersOf(s, c.particleSystem).value;
    var (s1, c1) := DeleteEmitterExecute(s, c).value;
    InsertRemoved(es, c.index);
    if c.index != 0 {
      WithEmittersRestore(s, c.particleSystem, RemoveAt(es, c.index));
    } else {
      assert RemoveAt(es, 0) == es[1..];
    }
  }

  /** Undoing the deletion of the first of two different emitters leaves them in the other order. */
  lemma DeleteFirstEmitterReorders(s: Scene, c: DeleteEmitterState)
    requires c.index == 0 && c.emitter.None?
    requires EmittersOf(s, c.particleSystem).Some?
    requires var es := EmittersOf(s, c.particleSystem).value; |es| == 2 && es[0] != es[1]
    ensures var (s1, c1) := DeleteEmitterExecute(s, c).value;
      DeleteEmitterRevert(s1, c1).Some?
      && EmittersOf(DeleteEmitterRevert(s1, c1).value.0, c.particleSystem) != EmittersOf(s, c.particleSystem)
  {
    var es := EmittersOf(s, c.particleSystem).value;
    DeleteEmitterUndo(s, c);
    assert (es[1..] + [es[0]])[0] == es[1];
  }

  /** Emitter property commands: the particle system, the emitter's index, the property and the value. */
  datatype EmitterPropertyState = EmitterPropertyState(particleSystem: Handle, index: nat, prop: EmitterProp, value: FieldValue)

  /**
   * `swap`: stores the value in the emitter and keeps its previous one. A dead node,
   * a node that is not a particle system, an index past the end, and an emitter of
   * another shape (`unreachable!`) all panic.
   */
  function EmitterPropertySwap(s: Scene, c: EmitterPropertyState): (r: Option<(Scene, EmitterPropertyState)>)
    ensures r.Some? <==>
      EmittersOf(s, c.particleSystem).Some? && c.index < |EmittersOf(s, c.particleSystem).value|
      && c.prop in EmittersOf(s, c.particleSystem).value[c.index].props
    ensures r.Some? ==> var e := EmittersOf(s, c.particleSystem).value[c.index];
      r.value.1 == c.(value := e.props[c.prop])
      && EmittersOf(r.value.0, c.particleSystem) == Some(EmittersOf(s, c.particleSystem).value[c.index := e.(props := e.props[c.prop := c.value])])
  {
    match EmittersOf(s, c.particleSystem)
    case None => None
    case Some(es) =>
      if c.index >= |es| || c.prop !in es[c.index].props then None
      else
        var e := es[c.index];
        Some((WithEmitters(s, c.particleSystem, es[c.index := e.(props := e.props[c.prop := c.value])]), c.(value := e.props[c.prop])))
  }

  /** An emitter property swap is its own inverse. */
  lemma EmitterPropertyUndo(s: Scene, c: EmitterPropertyState)
    requires EmitterPropertySwap(s, c).Some?
    ensures var (s1, c1) := EmitterPropertySwap(s, c).value;
      EmitterPropertySwap(s1, c1) == Some((s, c))
  {
    var es := EmittersOf(s, c.particleSystem).value;
    var e := es[c.index];
    var es1 := es[c.index := e.(props := e.props[c.prop := c.value])];
    assert e.props[c.prop := c.value][c.prop := e.props[c.prop]] == e.props;
    assert es1[c.index := es1[c.index].(props := es1[c.index].props[c.prop := e.props[c.prop]])] == es;
    var n := Get(s.graph.pool, c.particleSystem);
    WithNodeTwice(s, c.particleSystem, n.(emitters := Some(es1)), n.(emitters := Some(es)));
    WithEmittersRestore(s, c.particleSystem, es1);
  }
}
