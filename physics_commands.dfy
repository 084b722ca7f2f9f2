/**
 * The commands that edit the editor's physics world: attaching a body to a node,
 * attaching a collider to a body, deleting either, and swapping one property of
 * a body, collider or joint. Adding and deleting a joint are the pool command
 * shapes of `PoolCommands` applied to the joint pool. A panic is `None`.
 */
module PhysicsCommands {
  import opened Pools
  import opened Entities
  import opened PhysicsWorld
  import opened Scenes

  // ---------------------------------------------------------------- set body

  /** The fields of `SetBodyCommand`: the node, a ticket while reverted, the body's handle, the body while not in the pool. */
  datatype SetBodyState = SetBodyState(node: Handle, ticket: Option<Ticket>, handle: Handle, body: Option<RigidBody>)

  function NewSetBody(node: Handle, b: RigidBody): SetBodyState
  {
    SetBodyState(node, None, NONE, Some(b))
  }

  /**
   * `execute`: spawns the body (first time) or puts it back with the ticket, then
   * binds the node to the recorded handle. Putting back does not check that the
   * slot is the recorded handle.
   */
  function SetBodyExecute(s: Scene, c: SetBodyState): (r: Option<(Scene, SetBodyState)>)
    ensures r.Some? <==> c.body.Some? && (c.ticket.Some? ==> IsReserved(s.physics.bodies, c.ticket.value))
    ensures r.Some? ==> var (s1, c1) := r.value;
      var at := if c.ticket.None? then c1.handle else TicketHandle(s.physics.bodies, c.ticket.value);
      s1 == s.(physics := s1.physics)
      && s1.physics.colliders == s.physics.colliders && s1.physics.joints == s.physics.joints
      && c1 == c.(ticket := None, body := None, handle := c1.handle)
      && (c.ticket.Some? ==> c1.handle == c.handle)
      && !IsLive(s.physics.bodies, at)
      && IsLive(s1.physics.bodies, at) && Get(s1.physics.bodies, at) == c.body.value
      && (forall h :: IsLive(s.physics.bodies, h) ==>
            IsLive(s1.physics.bodies, h) && Get(s1.physics.bodies, h) == Get(s.physics.bodies, h))
      && (forall h :: IsLive(s1.physics.bodies, h) ==> h == at || IsLive(s.physics.bodies, h))
      && s1.physics.binder == BinderInsert(s.physics.binder, c.node, c1.handle)
  {
    match c.body
    case None => None
    case Some(b) =>
      match c.ticket
      case None =>
        var (p, h) := Spawn(s.physics.bodies, b);
        var ph := s.physics.(bodies := p, binder := BinderInsert(s.physics.binder, c.node, h));
        Some((s.(physics := ph), c.(handle := h, body := None)))
      case Some(t) =>
        if !IsReserved(s.physics.bodies, t) then None
        else
          var (p, _) := PutBack(s.physics.bodies, t, b);
          var ph := s.physics.(bodies := p, binder := BinderInsert(s.physics.binder, c.node, c.handle));
          Some((s.(physics := ph), c.(ticket := None, body := None)))
  }

  /** `revert`: reserves the body's slot, keeps the body and unbinds the node. */
  function SetBodyRevert(s: Scene, c: SetBodyState): (r: Option<(Scene, SetBodyState)>)
    ensures r.Some? <==> IsLive(s.physics.bodies, c.handle)
    ensures r.Some? ==> var (s1, c1) := r.value;
      s1 == s.(physics := s1.physics)
      && s1.physics.colliders == s.physics.colliders && s1.physics.joints == s.physics.joints
      && c1 == c.(ticket := Some(Ticket(c.handle.index)), body := Some(Get(s.physics.bodies, c.handle)))
      && IsReserved(s1.physics.bodies, c1.ticket.value)
      && (forall h :: IsLive(s1.physics.bodies, h) <==> IsLive(s.physics.bodies, h) && h != c.handle)
      && (forall h :: IsLive(s1.physics.bodies, h) ==> Get(s1.physics.bodies, h) == Get(s.physics.bodies, h))
      && s1.physics.binder == RemoveByKey(s.physics.binder, c.node)
  {
    if !IsLive(s.physics.bodies, c.handle) then None
    else
      var (p, t, b) := TakeReserve(s.physics.bodies, c.handle);
      var ph := s.physics.(bodies := p, binder := RemoveByKey(s.physics.binder, c.node));
      Some((s.(physics := ph), c.(ticket := Some(t), body := Some(b))))
  }

  /** `finalize`: a command still holding a ticket forgets it and unbinds the node. */
  function SetBodyFinalize(s: Scene, c: SetBodyState): (r: Option<(Scene, SetBodyState)>)
    ensures c.ticket.None? ==> r == Some((s, c))
    ensures c.ticket.Some? ==> (r.Some? <==> IsReserved(s.physics.bodies, c.ticket.value))
    ensures c.ticket.Some? && r.Some? ==> var (s1, c1) := r.value;
      c1 == c.(ticket := None) && s1 == s.(physics := s1.physics)
      && SameLive(s.physics.bodies, s1.physics.bodies)
      && (forall h :: IsLive(s.physics.bodies, h) ==> Get(s1.physics.bodies, h) == Get(s.physics.bodies, h))
      && !IsReserved(s1.physics.bodies, c.ticket.value)
      && ValueOf(s1.physics.binder, c.node).None?
  {
    match c.ticket
    case None => Some((s, c))
    case Some(t) =>
      if !IsReserved(s.physics.bodies, t) then None
      else
        var ph := s.physics.(bodies := ForgetTicket(s.physics.bodies, t), binder := RemoveByKey(s.physics.binder, c.node));
        Some((s.(physics := ph), c.(ticket := None)))
  }

  /**
   * Undo of a fresh set-body command leaves the same bodies live with the same
   * values, unbinds the node and no other, and redo repeats the first execution
   * exactly: the body returns to the handle it was spawned at and the node is bound
   * to it again.
   */
  lemma SetBodyUndo(s: Scene, node: Handle, b: RigidBody)
    ensures SetBodyExecute(s, NewSetBody(node, b)).Some?
    ensures var (s1, c1) := SetBodyExecute(s, NewSetBody(node, b)).value;
      SetBodyRevert(s1, c1).Some?
      && var (s2, c2) := SetBodyRevert(s1, c1).value;
      s2 == s.(physics := s2.physics)
      && s2.physics.colliders == s.physics.colliders && s2.physics.joints == s.physics.joints
      && SameLive(s.physics.bodies, s2.physics.bodies)
      && (forall h :: IsLive(s.physics.bodies, h) ==> Get(s2.physics.bodies, h) == Get(s.physics.bodies, h))
      && ValueOf(s2.physics.binder, node).None?
      && (forall k :: k != node ==> ValueOf(s2.physics.binder, k) == ValueOf(s.physics.binder, k))
      && SetBodyExecute(s2, c2) == Some((s1, c1))
  {
    var (s1, c1) := SetBodyExecute(s, NewSetBody(node, b)).value;
    var (s2, c2) := SetBodyRevert(s1, c1).value;
    var h := c1.handle;
    TakeReservePutBack(s1.physics.bodies, h);
    var b1 := s1.physics.binder;
    assert b1 == BinderInsert(s.physics.binder, node, h);
    var b2 := RemoveByKey(b1, node);
    assert b2 == Binder(b1.forward - {node}, b1.backward - {h});
    assert b2.forward[node := h] == b1.forward;
    assert b2.backward[h := node] == b1.backward;
  }

  // ---------------------------------------------------------------- set collider

  /** The fields of `SetColliderCommand`: the body, a ticket while reverted, the collider's handle, the collider while not in the pool. */
  datatype SetColliderState = SetColliderState(body: Handle, ticket: Option<Ticket>, handle: Handle, collider: Option<Collider>)

  function NewSetCollider(body: Handle, col: Collider): SetColliderState
  {
    SetColliderState(body, None, NONE, Some(col))
  }

  /**
   * `execute`: spawns the collider (first time) or puts it back with the ticket,
   * sets the collider at the recorded handle to point at the body and pushes the
   * handle onto the body's colliders. A dead body panics.
   */
  function SetColliderExecute(s: Scene, c: SetColliderState): (r: Option<(Scene, SetColliderState)>)
    ensures r.Some? ==> c.collider.Some?
    ensures c.collider.Some? && c.ticket.None? ==> (r.Some? <==> IsLive(s.physics.bodies, c.body))
    ensures r.Some? ==> var (s1, c1) := r.value;
      s1 == s.(physics := s1.physics)
      && s1.physics.binder == s.physics.binder && s1.physics.joints == s.physics.joints
      && c1 == c.(ticket := None, collider := None, handle := c1.handle)
      && (c.ticket.Some? ==> c1.handle == c.handle)
      && IsLive(s1.physics.colliders, c1.handle) && Get(s1.physics.colliders, c1.handle).parent == c.body
      && IsLive(s.physics.bodies, c.body)
      && s1.physics.bodies == Set(s.physics.bodies, c.body,
           Get(s.physics.bodies, c.body).(colliders := Get(s.physics.bodies, c.body).colliders + [c1.handle]))
    ensures r.Some? && c.ticket.None? ==> var (s1, c1) := r.value;
      !IsLive(s.physics.colliders, c1.handle)
      && Get(s1.physics.colliders, c1.handle) == c.collider.value.(parent := c.body)
      && (forall h :: IsLive(s.physics.colliders, h) ==>
            IsLive(s1.physics.colliders, h) && Get(s1.physics.colliders, h) == Get(s.physics.colliders, h))
      && (forall h :: IsLive(s1.physics.colliders, h) ==> h == c1.handle || IsLive(s.physics.colliders, h))
  {
    if c.collider.None? then None
    else if c.ticket.Some? && !IsReserved(s.physics.colliders, c.ticket.value) then None
    else
      var (p, h) :=
        if c.ticket.None? then Spawn(s.physics.colliders, c.collider.value)
        else PutBack(s.physics.colliders, c.ticket.value, c.collider.value);
      var handle := if c.ticket.None? then h else c.handle;
      if !IsLive(p, handle) || !IsLive(s.physics.bodies, c.body) then None
      else
        var b := Get(s.physics.bodies, c.body);
        var ph := s.physics.(
          colliders := Set(p, handle, Get(p, handle).(parent := c.body)),
          bodies := Set(s.physics.bodies, c.body, b.(colliders := b.colliders + [handle])));
        Some((s.(physics := ph), SetColliderState(c.body, None, handle, None)))
  }

  /**
   * `revert`: reserves the collider's slot, keeps the collider with its parent
   * cleared and removes the first occurrence of its handle from the body's
   * colliders. A dead body, or a body that does not list the collider, panics.
   */
  function SetColliderRevert(s: Scene, c: SetColliderState): (r: Option<(Scene, SetColliderState)>)
    ensures r.Some? <==>
      IsLive(s.physics.colliders, c.handle) && IsLive(s.physics.bodies, c.body)
      && c.handle in Get(s.physics.bodies, c.body).colliders
    ensures r.Some? ==> var (s1, c1) := r.value;
      s1 == s.(physics := s1.physics)
      && s1.physics.binder == s.physics.binder && s1.physics.joints == s.physics.joints
      && c1 == c.(ticket := Some(Ticket(c.handle.index)),
                  collider := Some(Get(s.physics.colliders, c.handle).(parent := NONE)))
      && IsReserved(s1.physics.colliders, c1.ticket.value)
      && (forall h :: IsLive(s1.physics.colliders, h) <==> IsLive(s.physics.colliders, h) && h != c.handle)
      && (forall h :: IsLive(s1.physics.colliders, h) ==> Get(s1.physics.colliders, h) == Get(s.physics.colliders, h))
      && s1.physics.bodies == Set(s.physics.bodies, c.body,
           Get(s.physics.bodies, c.body).(colliders := RemoveFirst(Get(s.physics.bodies, c.body).colliders, c.handle)))
  {
    if !IsLive(s.physics.colliders, c.handle) then None
    else
      var (p, t, col) := TakeReserve(s.physics.colliders, c.handle);
      if !IsLive(s.physics.bodies, c.body) then None
      else
        var b := Get(s.physics.bodies, c.body);
        if c.handle !in b.colliders then None
        else
          var ph := s.physics.(
            colliders := p,
            bodies := Set(s.physics.bodies, c.body, b.(colliders := RemoveFirst(b.colliders, c.handle))));
          Some((s.(physics := ph), c.(ticket := Some(t), collider := Some(col.(parent := NONE)))))
  }

  /** `finalize`: a command still holding a ticket forgets it; the body's collider list is not touched. */
  function SetColliderFinalize(s: Scene, c: SetColliderState): (r: Option<(Scene, SetColliderState)>)
    ensures c.ticket.None? ==> r == Some((s, c))
    ensures c.ticket.Some? ==> (r.Some? <==> IsReserved(s.physics.colliders, c.ticket.value))
    ensures r.Some? ==> var (s1, c1) := r.value;
      c1 == c.(ticket := None) && s1 == s.(physics := s.physics.(colliders := s1.physics.colliders))
      && SameLive(s.physics.colliders, s1.physics.colliders)
      && (forall h :: IsLive(s.physics.colliders, h) ==> Get(s1.physics.colliders, h) == Get(s.physics.colliders, h))
  {
    match ForgetHeld(s.physics.colliders, c.ticket)
    case None => None
    case Some(p) => Some((s.(physics := s.physics.(colliders := p)), c.(ticket := None)))
  }

  /** Every collider a body lists is live. */
  ghost predicate CollidersLive(ph: Physics, body: Handle)
    requires IsLive(ph.bodies, body)
  {
    forall x :: x in Get(ph.bodies, body).colliders ==> IsLive(ph.colliders, x)
  }

  /**
   * Undo of a fresh set-collider command on a live body whose colliders are live
   * restores the bodies exactly and leaves the same colliders live with the same
   * values; redo repeats the first execution exactly.
   */
  lemma SetColliderUndo(s: Scene, body: Handle, col: Collider)
    requires IsLive(s.physics.bodies, body) && CollidersLive(s.physics, body)
    ensures SetColliderExecute(s, NewSetCollider(body, col)).Some?
    ensures var (s1, c1) := SetColliderExecute(s, NewSetCollider(body, col)).value;
      SetColliderRevert(s1, c1).Some?
      && var (s2, c2) := SetColliderRevert(s1, c1).value;
      s2 == s.(physics := s2.physics)
      && s2.physics.bodies == s.physics.bodies
      && s2.physics.binder == s.physics.binder && s2.physics.joints == s.physics.joints
      && SameLive(s.physics.colliders, s2.physics.colliders)
      && (forall h :: IsLive(s.physics.colliders, h) ==> Get(s2.physics.colliders, h) == Get(s.physics.colliders, h))
      && SetColliderExecute(s2, c2) == Some((s1, c1))
  {
    var (s1, c1) := SetColliderExecute(s, NewSetCollider(body, col)).value;
    var h := c1.handle;
    var bs := s.physics.bodies;
    var b := Get(bs, body);
    assert h !in b.colliders;
    RemoveFirstAppended(b.colliders, h);
    var (s2, c2) := SetColliderRevert(s1, c1).value;
    SetTwice(bs, body, b.(colliders := b.colliders + [h]), b);
    SetSame(bs, body);
    assert s2.physics.bodies == bs;
    var q := s1.physics.colliders;
    var (p2, t, v) := TakeReserve(q, h);
    TakeReservePutBack(q, h);
    PutBackThenSet(p2, t, col.(parent := NONE), Get(q, h));
  }

  // ---------------------------------------------------------------- delete body

  /** The fields of `DeleteBodyCommand`: the handle, a ticket and the body while deleted, the node it was bound to. */
  datatype DeleteBodyState = DeleteBodyState(handle: Handle, ticket: Option<Ticket>, body: Option<RigidBody>, node: Handle)

  function NewDeleteBody(h: Handle): DeleteBodyState
  {
    DeleteBodyState(h, None, None, NONE)
  }

  /** `execute`: reserves the body's slot and unbinds it, remembering the node it was bound to (`NONE` if none). */
  function DeleteBodyExecute(s: Scene, c: DeleteBodyState): (r: Option<(Scene, DeleteBodyState)>)
    ensures r.Some? <==> IsLive(s.physics.bodies, c.handle)
    ensures r.Some? ==> var (s1, c1) := r.value;
      s1 == s.(physics := s1.physics)
      && s1.physics.colliders == s.physics.colliders && s1.physics.joints == s.physics.joints
      && c1 == DeleteBodyState(c.handle, Some(Ticket(c.handle.index)), Some(Get(s.physics.bodies, c.handle)), c1.node)
      && IsReserved(s1.physics.bodies, c1.ticket.value)
      && (forall h :: IsLive(s1.physics.bodies, h) <==> IsLive(s.physics.bodies, h) && h != c.handle)
      && (forall h :: IsLive(s1.physics.bodies, h) ==> Get(s1.physics.bodies, h) == Get(s.physics.bodies, h))
      && c.handle !in s1.physics.binder.backward
      && (c.handle in s.physics.binder.backward ==>
            c1.node == s.physics.binder.backward[c.handle] && ValueOf(s1.physics.binder, c1.node).None?)
      && (c.handle !in s.physics.binder.backward ==> c1.node == NONE && s1.physics.binder == s.physics.binder)
  {
    if !IsLive(s.physics.bodies, c.handle) then None
    else
      var (p, t, b) := TakeReserve(s.physics.bodies, c.handle);
      var (ph, node) := UnbindByBody(s.physics.(bodies := p), c.handle);
      Some((s.(physics := ph), DeleteBodyState(c.handle, Some(t), Some(b), node)))
  }

  /**
   * `revert`: puts the body back with the ticket (both unwrapped), records the
   * handle and binds the remembered node to it, even when that node is `NONE`.
   */
  function DeleteBodyRevert(s: Scene, c: DeleteBodyState): (r: Option<(Scene, DeleteBodyState)>)
    ensures r.Some? <==> c.ticket.Some? && c.body.Some? && IsReserved(s.physics.bodies, c.ticket.value)
    ensures r.Some? ==> var (s1, c1) := r.value;
      s1 == s.(physics := s1.physics)
      && s1.physics.colliders == s.physics.colliders && s1.physics.joints == s.physics.joints
      && c1 == DeleteBodyState(TicketHandle(s.physics.bodies, c.ticket.value), None, None, c.node)
      && IsLive(s1.physics.bodies, c1.handle) && Get(s1.physics.bodies, c1.handle) == c.body.value
      && (forall h :: IsLive(s1.physics.bodies, h) <==> IsLive(s.physics.bodies, h) || h == c1.handle)
      && s1.physics.binder == BinderInsert(s.physics.binder, c.node, c1.handle)
  {
    if c.ticket.None? || c.body.None? || !IsReserved(s.physics.bodies, c.ticket.value) then None
    else
      var (p, h) := PutBack(s.physics.bodies, c.ticket.value, c.body.value);
      var ph := s.physics.(bodies := p, binder := BinderInsert(s.physics.binder, c.node, h));
      Some((s.(physics := ph), DeleteBodyState(h, None, None, c.node)))
  }

  /** `finalize`: a deleted body's ticket is forgotten, so its slot is free for good; the binder is not touched. */
  function DeleteBodyFinalize(s: Scene, c: DeleteBodyState): (r: Option<(Scene, DeleteBodyState)>)
    ensures c.ticket.None? ==> r == Some((s, c))
    ensures c.ticket.Some? ==> (r.Some? <==> IsReserved(s.physics.bodies, c.ticket.value))
    ensures r.Some? ==> var (s1, c1) := r.value;
      c1 == c.(ticket := None) && s1 == s.(physics := s.physics.(bodies := s1.physics.bodies))
      && SameLive(s.physics.bodies, s1.physics.bodies)
      && (forall h :: IsLive(s.physics.bodies, h) ==> Get(s1.physics.bodies, h) == Get(s.physics.bodies, h))
  {
    match ForgetHeld(s.physics.bodies, c.ticket)
    case None => None
    case Some(p) => Some((s.(physics := s.physics.(bodies := p)), c.(ticket := None)))
  }

  /**
   * Undo of deleting a live body restores the body pool exactly. With a consistent
   * binder, a body bound to a node is bound to it again and the whole scene is
   * restored; a body bound to no node ends up bound to `NONE`.
   */
  lemma DeleteBodyUndo(s: Scene, h: Handle)
    requires IsLive(s.physics.bodies, h) && Consistent(s.physics.binder)
    ensures DeleteBodyExecute(s, NewDeleteBody(h)).Some?
    ensures var (s1, c1) := DeleteBodyExecute(s, NewDeleteBody(h)).value;
      DeleteBodyRevert(s1, c1).Some?
      && var (s2, c2) := DeleteBodyRevert(s1, c1).value;
      c2 == NewDeleteBody(h).(node := c1.node)
      && s2 == s.(physics := s.physics.(binder := s2.physics.binder))
      && (h in s.physics.binder.backward ==> s2 == s)
      && (h !in s.physics.binder.backward ==> s2.physics.binder == BinderInsert(s.physics.binder, NONE, h))
  {
    TakeReservePutBack(s.physics.bodies, h);
    if h in s.physics.binder.backward {
      RemoveByValueInsert(s.physics.binder, h);
    }
  }

  // ---------------------------------------------------------------- delete collider

  /** The fields of `DeleteColliderCommand`: the handle, a ticket and the collider while deleted, its body. */
  datatype DeleteColliderState = DeleteColliderState(handle: Handle, ticket: Option<Ticket>, collider: Option<Collider>, body: Handle)

  function NewDeleteCollider(h: Handle): DeleteColliderState
  {
    DeleteColliderState(h, None, None, NONE)
  }

  /**
   * `execute`: reserves the collider's slot, remembers its parent body and removes
   * the first occurrence of the collider from the body's colliders. A dead parent,
   * or one that does not list the collider, panics.
   */
  function DeleteColliderExecute(s: Scene, c: DeleteColliderState): (r: Option<(Scene, DeleteColliderState)>)
    ensures r.Some? <==>
      IsLive(s.physics.colliders, c.handle)
      && var body := Get(s.physics.colliders, c.handle).parent;
      IsLive(s.physics.bodies, body) && c.handle in Get(s.physics.bodies, body).colliders
    ensures r.Some? ==> var (s1, c1) := r.value;
      var col := Get(s.physics.colliders, c.handle);
      var b := Get(s.physics.bodies, col.parent);
      s1 == s.(physics := s1.physics)
      && s1.physics.binder == s.physics.binder && s1.physics.joints == s.physics.joints
      && c1 == DeleteColliderState(c.handle, Some(Ticket(c.handle.index)), Some(col), col.parent)
      && IsReserved(s1.physics.colliders, c1.ticket.value)
      && (forall h :: IsLive(s1.physics.colliders, h) <==> IsLive(s.physics.colliders, h) && h != c.handle)
      && (forall h :: IsLive(s1.physics.colliders, h) ==> Get(s1.physics.colliders, h) == Get(s.physics.colliders, h))
      && s1.physics.bodies == Set(s.physics.bodies, col.parent, b.(colliders := RemoveFirst(b.colliders, c.handle)))
  {
    if !IsLive(s.physics.colliders, c.handle) then None
    else
      var (p, t, col) := TakeReserve(s.physics.colliders, c.handle);
      if !IsLive(s.physics.bodies, col.parent) then None
      else
        var b := Get(s.physics.bodies, col.parent);
        if c.handle !in b.colliders then None
        else
          var ph := s.physics.(
            colliders := p,
            bodies := Set(s.physics.bodies, col.parent, b.(colliders := RemoveFirst(b.colliders, c.handle))));
          Some((s.(physics := ph), DeleteColliderState(c.handle, Some(t), Some(col), col.parent)))
  }

  /** `revert`: puts the collider back with the ticket (both unwrapped) and pushes its handle onto the body's colliders. */
  function DeleteColliderRevert(s: Scene, c: DeleteColliderState): (r: Option<(Scene, DeleteColliderState)>)
    ensures r.Some? <==>
      c.ticket.Some? && c.collider.Some? && IsReserved(s.physics.colliders, c.ticket.value)
      && IsLive(s.physics.bodies, c.body)
    ensures r.Some? ==> var (s1, c1) := r.value;
      var b := Get(s.physics.bodies, c.body);
      s1 == s.(physics := s1.physics)
      && s1.physics.binder == s.physics.binder && s1.physics.joints == s.physics.joints
      && c1 == DeleteColliderState(TicketHandle(s.physics.colliders, c.ticket.value), None, None, c.body)
      && IsLive(s1.physics.colliders, c1.handle) && Get(s1.physics.colliders, c1.handle) == c.collider.value
      && (forall h :: IsLive(s1.physics.colliders, h) <==> IsLive(s.physics.colliders, h) || h == c1.handle)
      && s1.physics.bodies == Set(s.physics.bodies, c.body, b.(colliders := b.colliders + [c1.handle]))
  {
    if c.ticket.None? || c.collider.None? || !IsReserved(s.physics.colliders, c.ticket.value) then None
    else
      var (p, h) := PutBack(s.physics.colliders, c.ticket.value, c.collider.value);
      if !IsLive(s.physics.bodies, c.body) then None
      else
        var b := Get(s.physics.bodies, c.body);
        var ph := s.physics.(colliders := p, bodies := Set(s.physics.bodies, c.body, b.(colliders := b.colliders + [h])));
        Some((s.(physics := ph), DeleteColliderState(h, None, None, c.body)))
  }

  /** `finalize`: a deleted collider's ticket is forgotten, so its slot is free for good. */
  function DeleteColliderFinalize(s: Scene, c: DeleteColliderState): (r: Option<(Scene, DeleteColliderState)>)
    ensures c.ticket.None? ==> r == Some((s, c))
    ensures c.ticket.Some? ==> (r.Some? <==> IsReserved(s.physics.colliders, c.ticket.value))
    ensures r.Some? ==> var (s1, c1) := r.value;
      c1 == c.(ticket := None) && s1 == s.(physics := s.physics.(colliders := s1.physics.colliders))
      && SameLive(s.physics.colliders, s1.physics.colliders)
      && (forall h :: IsLive(s.physics.colliders, h) ==> Get(s1.physics.colliders, h) == Get(s.physics.colliders, h))
  {
    match ForgetHeld(s.physics.colliders, c.ticket)
    case None => None
    case Some(p) => Some((s.(physics := s.physics.(colliders := p)), c.(ticket := None)))
  }

  /**
   * Undo of deleting a collider restores the collider pool exactly; the collider
   * comes back at the end of its body's list, which keeps the same elements.
   */
  lemma DeleteColliderUndo(s: Scene, h: Handle)
    requires IsLive(s.physics.colliders, h)
    requires var body := Get(s.physics.colliders, h).parent;
      IsLive(s.physics.bodies, body) && h in Get(s.physics.bodies, body).colliders
    ensures DeleteColliderExecute(s, NewDeleteCollider(h)).Some?
    ensures var (s1, c1) := DeleteColliderExecute(s, NewDeleteCollider(h)).value;
      DeleteColliderRevert(s1, c1).Some?
      && var (s2, c2) := DeleteColliderRevert(s1, c1).value;
      var body := Get(s.physics.colliders, h).parent;
      var b := Get(s.physics.bodies, body);
      var moved := RemoveFirst(b.colliders, h) + [h];
      c2 == DeleteColliderState(h, None, None, body)
      && s2 == s.(physics := s.physics.(bodies := Set(s.physics.bodies, body, b.(colliders := moved))))
      && multiset(moved) == multiset(b.colliders)
  {
    var (s1, c1) := DeleteColliderExecute(s, NewDeleteCollider(h)).value;
    var body := Get(s.physics.colliders, h).parent;
    var b := Get(s.physics.bodies, body);
    TakeReservePutBack(s.physics.colliders, h);
    SetTwice(s.physics.bodies, body, b.(colliders := RemoveFirst(b.colliders, h)), b.(colliders := RemoveFirst(b.colliders, h) + [h]));
  }

  // ---------------------------------------------------------------- property swaps

  /**
   * The commands generated by `define_body_command!`, `define_collider_command!`,
   * `define_collider_variant_command!`, `define_joint_command!` and
   * `define_joint_variant_command!`: the entity's handle and the value to swap in.
   */
  datatype PhysicsPropertyState =
    | BodyProperty(handle: Handle, bodyProp: BodyProp, value: FieldValue)
    | ColliderProperty(handle: Handle, colliderProp: ColliderProp, value: FieldValue)
    | JointProperty(handle: Handle, jointProp: JointProp, value: FieldValue)
    | JointConnectedBody(handle: Handle, body2: Handle)

  /** The swap does not panic: the entity is live and has the property (the shape or joint kind matches). */
  predicate CanSwap(ph: Physics, c: PhysicsPropertyState)
  {
    match c
    case BodyProperty(h, p, _) => IsLive(ph.bodies, h) && p in Get(ph.bodies, h).props
    case ColliderProperty(h, p, _) => IsLive(ph.colliders, h) && p in Get(ph.colliders, h).props
    case JointProperty(h, p, _) => IsLive(ph.joints, h) && p in Get(ph.joints, h).props
    case JointConnectedBody(h, _) => IsLive(ph.joints, h)
  }

  /**
   * `swap`, both `execute` and `revert`: the entity takes the command's value and
   * the command keeps the entity's previous one; nothing else changes.
   */
  function PhysicsPropertySwap(ph: Physics, c: PhysicsPropertyState): (r: Option<(Physics, PhysicsPropertyState)>)
    ensures r.Some? <==> CanSwap(ph, c)
    ensures r.Some? ==> CanSwap(r.value.0, r.value.1) && r.value.1.handle == c.handle
    ensures r.Some? && c.BodyProperty? ==> var (ph1, c1) := r.value;
      var b := Get(ph.bodies, c.handle);
      ph1 == ph.(bodies := Set(ph.bodies, c.handle, b.(props := b.props[c.bodyProp := c.value])))
      && c1 == BodyProperty(c.handle, c.bodyProp, b.props[c.bodyProp])
    ensures r.Some? && c.ColliderProperty? ==> var (ph1, c1) := r.value;
      var x := Get(ph.colliders, c.handle);
      ph1 == ph.(colliders := Set(ph.colliders, c.handle, x.(props := x.props[c.colliderProp := c.value])))
      && c1 == ColliderProperty(c.handle, c.colliderProp, x.props[c.colliderProp])
    ensures r.Some? && c.JointProperty? ==> var (ph1, c1) := r.value;
      var j := Get(ph.joints, c.handle);
      ph1 == ph.(joints := Set(ph.joints, c.handle, j.(props := j.props[c.jointProp := c.value])))
      && c1 == JointProperty(c.handle, c.jointProp, j.props[c.jointProp])
    ensures r.Some? && c.JointConnectedBody? ==> var (ph1, c1) := r.value;
      var j := Get(ph.joints, c.handle);
      ph1 == ph.(joints := Set(ph.joints, c.handle, j.(body2 := c.body2)))
      && c1 == JointConnectedBody(c.handle, j.body2)
  {
    if !CanSwap(ph, c) then None
    else
      match c
      case BodyProperty(h, p, v) =>
        var b := Get(ph.bodies, h);
        Some((ph.(bodies := Set(ph.bodies, h, b.(props := b.props[p := v]))), BodyProperty(h, p, b.props[p])))
      case ColliderProperty(h, p, v) =>
        var x := Get(ph.colliders, h);
        Some((ph.(colliders := Set(ph.colliders, h, x.(props := x.props[p := v]))), ColliderProperty(h, p, x.props[p])))
      case JointProperty(h, p, v) =>
        var j := Get(ph.joints, h);
        Some((ph.(joints := Set(ph.joints, h, j.(props := j.props[p := v]))), JointProperty(h, p, j.props[p])))
      case JointConnectedBody(h, v) =>
        var j := Get(ph.joints, h);
        Some((ph.(joints := Set(ph.joints, h, j.(body2 := v))), JointConnectedBody(h, j.body2)))
  }

  /** A physics property swap is its own inverse: undo restores the physics world and the command exactly. */
  lemma PhysicsPropertyUndo(ph: Physics, c: PhysicsPropertyState)
    requires CanSwap(ph, c)
    ensures var (ph1, c1) := PhysicsPropertySwap(ph, c).value;
      PhysicsPropertySwap(ph1, c1) == Some((ph, c))
  {
    var (ph1, c1) := PhysicsPropertySwap(ph, c).value;
    match c
    case BodyProperty(h, p, v) =>
      var b := Get(ph.bodies, h);
      assert b.(props := b.props[p := v]).(props := b.props[p := v][p := b.props[p]]) == b;
      SetTwice(ph.bodies, h, b.(props := b.props[p := v]), b);
      SetSame(ph.bodies, h);
    case ColliderProperty(h, p, v) =>
      var x := Get(ph.colliders, h);
      assert x.(props := x.props[p := v]).(props := x.props[p := v][p := x.props[p]]) == x;
      SetTwice(ph.colliders, h, x.(props := x.props[p := v]), x);
      SetSame(ph.colliders, h);
    case JointProperty(h, p, v) =>
      var j := Get(ph.joints, h);
      assert j.(props := j.props[p := v]).(props := j.props[p := v][p := j.props[p]]) == j;
      SetTwice(ph.joints, h, j.(props := j.props[p := v]), j);
      SetSame(ph.joints, h);
    case JointConnectedBody(h, v) =>
      var j := Get(ph.joints, h);
      SetTwice(ph.joints, h, j.(body2 := v), j);
      SetSame(ph.joints, h);
  }
}
