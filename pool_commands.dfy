/**
 * The two shapes shared by the commands that create or delete one pool entry:
 * an "add" command spawns its value on first execution, reserves the slot on
 * revert and puts the value back into that very slot on the next execution; a
 * "delete" command reserves the slot on execution and puts the value back on
 * revert. Either forgets a ticket it still holds when it is finalized.
 * A panic of the source (an `unwrap` of a missing value, an `assert_eq!` on the
 * handle, indexing a dead handle) is `None`.
 */
module PoolCommands {
  import opened Pools

  /** The fields of an add command: a ticket while reverted, the handle, the value while not in the pool. */
  datatype AddState<T> = AddState(ticket: Option<Ticket>, handle: Handle, value: Option<T>)

  /** A fresh add command: no ticket, the default handle, the value to add. */
  function NewAdd<T>(v: T): AddState<T>
  {
    AddState(None, NONE, Some(v))
  }

  /**
   * `execute`: without a ticket, spawns the value and records its handle; with a
   * ticket, puts the value back and asserts that it is at the recorded handle.
   */
  function AddExecute<T>(p: Pool<T>, c: AddState<T>): (r: Option<(Pool<T>, AddState<T>)>)
    ensures c.value.None? ==> r.None?
    ensures c.value.Some? && c.ticket.None? ==> r.Some? && r.value.0 == Spawn(p, c.value.value).0
    ensures r.Some? ==> var (p1, c1) := r.value;
      c1.ticket.None? && c1.value.None? && IsLive(p1, c1.handle) && Get(p1, c1.handle) == c.value.value
      && !IsLive(p, c1.handle)
      && (forall h :: IsLive(p, h) ==> IsLive(p1, h) && Get(p1, h) == Get(p, h))
      && (forall h :: IsLive(p1, h) ==> h == c1.handle || IsLive(p, h))
    ensures r.Some? && c.ticket.Some? ==> r.value.1.handle == c.handle
  {
    match c.value
    case None => None
    case Some(v) =>
      match c.ticket
      case None =>
        var (p1, h) := Spawn(p, v);
        Some((p1, AddState(None, h, None)))
      case Some(t) =>
        if !IsReserved(p, t) then None
        else
          var (p1, h) := PutBack(p, t, v);
          if h != c.handle then None else Some((p1, AddState(None, c.handle, None)))
  }

  /** `revert`: reserves the recorded handle and keeps its ticket and value. */
  function AddRevert<T>(p: Pool<T>, c: AddState<T>): (r: Option<(Pool<T>, AddState<T>)>)
    ensures r.Some? <==> IsLive(p, c.handle)
    ensures r.Some? ==> var (p1, c1) := r.value;
      c1 == AddState(Some(Ticket(c.handle.index)), c.handle, Some(Get(p, c.handle)))
      && !IsLive(p1, c.handle) && IsReserved(p1, c1.ticket.value)
      && (forall h :: IsLive(p1, h) <==> IsLive(p, h) && h != c.handle)
  {
    if !IsLive(p, c.handle) then None
    else
      var (p1, t, v) := TakeReserve(p, c.handle);
      Some((p1, AddState(Some(t), c.handle, Some(v))))
  }

  /** `finalize`: forgets the ticket if the command holds one. */
  function AddFinalize<T>(p: Pool<T>, c: AddState<T>): (r: Option<(Pool<T>, AddState<T>)>)
    ensures c.ticket.None? ==> r == Some((p, c))
    ensures c.ticket.Some? ==> (r.Some? <==> IsReserved(p, c.ticket.value))
    ensures r.Some? ==>
      r.value.1 == c.(ticket := None) && SameLive(p, r.value.0)
      && (forall h :: IsLive(p, h) ==> Get(r.value.0, h) == Get(p, h))
  {
    match ForgetHeld(p, c.ticket)
    case None => None
    case Some(p1) => Some((p1, c.(ticket := None)))
  }

  /** The fields of a delete command: the handle, and a ticket and value while deleted. */
  datatype DeleteState<T> = DeleteState(handle: Handle, ticket: Option<Ticket>, value: Option<T>)

  /** A fresh delete command for `h`. */
  function NewDelete<T>(h: Handle): DeleteState<T>
  {
    DeleteState(h, None, None)
  }

  /** `execute`: reserves the handle, keeping the ticket and the value. */
  function DeleteExecute<T>(p: Pool<T>, c: DeleteState<T>): (r: Option<(Pool<T>, DeleteState<T>)>)
    ensures r.Some? <==> IsLive(p, c.handle)
    ensures r.Some? ==> var (p1, c1) := r.value;
      c1 == DeleteState(c.handle, Some(Ticket(c.handle.index)), Some(Get(p, c.handle)))
      && !IsLive(p1, c.handle) && IsReserved(p1, c1.ticket.value)
      && (forall h :: IsLive(p1, h) <==> IsLive(p, h) && h != c.handle)
  {
    if !IsLive(p, c.handle) then None
    else
      var (p1, t, v) := TakeReserve(p, c.handle);
      Some((p1, DeleteState(c.handle, Some(t), Some(v))))
  }

  /** `revert`: puts the value back with the ticket (both unwrapped) and records the handle. */
  function DeleteRevert<T>(p: Pool<T>, c: DeleteState<T>): (r: Option<(Pool<T>, DeleteState<T>)>)
    ensures r.Some? <==> c.ticket.Some? && c.value.Some? && IsReserved(p, c.ticket.value)
    ensures r.Some? ==> var (p1, c1) := r.value;
      c1 == DeleteState(TicketHandle(p, c.ticket.value), None, None)
      && IsLive(p1, c1.handle) && Get(p1, c1.handle) == c.value.value
      && (forall h :: IsLive(p1, h) <==> IsLive(p, h) || h == c1.handle)
  {
    if c.ticket.None? || c.value.None? || !IsReserved(p, c.ticket.value) then None
    else
      var (p1, h) := PutBack(p, c.ticket.value, c.value.value);
      Some((p1, DeleteState(h, None, None)))
  }

  /** `finalize`: forgets the ticket if the command holds one. */
  function DeleteFinalize<T>(p: Pool<T>, c: DeleteState<T>): (r: Option<(Pool<T>, DeleteState<T>)>)
    ensures c.ticket.None? ==> r == Some((p, c))
    ensures c.ticket.Some? ==> (r.Some? <==> IsReserved(p, c.ticket.value))
    ensures r.Some? ==>
      r.value.1 == c.(ticket := None) && SameLive(p, r.value.0)
      && (forall h :: IsLive(p, h) ==> Get(r.value.0, h) == Get(p, h))
  {
    match ForgetHeld(p, c.ticket)
    case None => None
    case Some(p1) => Some((p1, c.(ticket := None)))
  }

  /**
   * Undo and redo of an add command: after the first execution, revert followed by
   * execute restores exactly the pool and the command, and so does execute followed
   * by revert after a revert.
   */
  lemma AddRevertExecute<T>(p: Pool<T>, v: T)
    ensures var e := AddExecute(p, NewAdd(v));
      e.Some?
      && AddRevert(e.value.0, e.value.1).Some?
      && var u := AddRevert(e.value.0, e.value.1).value;
      AddExecute(u.0, u.1) == e
      && AddRevert(AddExecute(u.0, u.1).value.0, AddExecute(u.0, u.1).value.1) == Some(u)
  {
    var (p1, c1) := AddExecute(p, NewAdd(v)).value;
    TakeReservePutBack(p1, c1.handle);
    var (p2, c2) := AddRevert(p1, c1).value;
    PutBackTakeReserve(p2, c2.ticket.value, c2.value.value);
  }

  /** Executing an add command twice without a revert in between panics (the value is gone). */
  lemma AddExecuteTwicePanics<T>(p: Pool<T>, c: AddState<T>)
    requires AddExecute(p, c).Some?
    ensures var (p1, c1) := AddExecute(p, c).value; AddExecute(p1, c1).None?
  {
  }

  /**
   * Finalizing an add command that was undone: the pool keeps exactly the values it
   * had before the command, and the handle it handed out never resolves again.
   */
  lemma AddUndoneFinalized<T>(p: Pool<T>, v: T, w: T)
    ensures var (p1, c1) := AddExecute(p, NewAdd(v)).value;
      var (p2, c2) := AddRevert(p1, c1).value;
      AddFinalize(p2, c2).Some?
      && var (p3, c3) := AddFinalize(p2, c2).value;
      SameLive(p, p3) && (forall h :: IsLive(p, h) ==> Get(p3, h) == Get(p, h))
      && c3.ticket.None? && !IsLive(Spawn(p3, w).0, c1.handle)
  {
    SpawnReserveForget(p, v, w);
  }

  /** Undo of a delete command restores exactly the pool it started from, and the handle. */
  lemma DeleteExecuteRevert<T>(p: Pool<T>, h: Handle)
    requires IsLive(p, h)
    ensures var e := DeleteExecute(p, NewDelete(h));
      e.Some? && DeleteRevert(e.value.0, e.value.1) == Some((p, NewDelete(h)))
  {
    TakeReservePutBack(p, h);
  }

  /** Redo after undo of a delete command repeats exactly its first execution. */
  lemma DeleteRedo<T>(p: Pool<T>, h: Handle)
    requires IsLive(p, h)
    ensures var e := DeleteExecute(p, NewDelete(h));
      var u := DeleteRevert(e.value.0, e.value.1).value;
      DeleteExecute(u.0, u.1) == e
  {
    DeleteExecuteRevert(p, h);
  }

  /**
   * Finalizing an executed delete command frees the slot for good: the pool keeps
   * every other value and the deleted handle never resolves again.
   */
  lemma DeleteFinalized<T>(p: Pool<T>, h: Handle, w: T)
    requires IsLive(p, h)
    ensures var (p1, c1) := DeleteExecute(p, NewDelete(h)).value;
      DeleteFinalize(p1, c1).Some?
      && var (p2, c2) := DeleteFinalize(p1, c1).value;
      (forall g :: IsLive(p2, g) <==> IsLive(p, g) && g != h)
      && (forall g :: IsLive(p2, g) ==> Get(p2, g) == Get(p, g))
      && c2.ticket.None? && !IsLive(Spawn(p2, w).0, h)
  {
    var (p1, c1) := DeleteExecute(p, NewDelete(h)).value;
    var (p2, c2) := DeleteFinalize(p1, c1).value;
    var (p3, h3) := Spawn(p2, w);
    if h3.index == h.index {
      assert p2.records[h.index].generation == h.generation;
    }
  }
}
