/**
 * The generational object pool the scene is stored in (rg3d's `Pool`), as far as
 * the editor's commands rely on it: handles are (index, generation) pairs, a slot
 * can be reserved with a ticket (its value moved out, its generation kept) and a
 * ticket either puts a value back at the very same handle or is forgotten, which
 * frees the slot for reuse under a newer generation.
 */
module Pools {

  datatype Option<T> = None | Some(value: T)

  /** Address of a pool slot. Generations of spawned records start at 1. */
  datatype Handle = Handle(index: nat, generation: nat)

  /** `Handle::NONE`: generation 0 is never issued, so it never resolves. */
  const NONE: Handle := Handle(0, 0)

  /** Proof of a reservation: the slot index whose value was moved out. */
  datatype Ticket = Ticket(index: nat)

  datatype Payload<T> = Vacant | Occupied(value: T) | Reserved

  datatype Record<T> = Record(generation: nat, payload: Payload<T>)

  datatype Pool<T> = Pool(records: seq<Record<T>>)

  function EmptyPool<T>(): Pool<T> { Pool([]) }

  /** Every record has been spawned at least once. */
  predicate Valid<T>(p: Pool<T>)
  {
    forall i :: 0 <= i < |p.records| ==> p.records[i].generation >= 1
  }

  predicate IsLive<T>(p: Pool<T>, h: Handle)
  {
    h.index < |p.records| && p.records[h.index].generation == h.generation
    && p.records[h.index].payload.Occupied?
  }

  function Get<T>(p: Pool<T>, h: Handle): T
    requires IsLive(p, h)
  {
    p.records[h.index].payload.value
  }

  predicate IsReserved<T>(p: Pool<T>, t: Ticket)
  {
    t.index < |p.records| && p.records[t.index].payload.Reserved?
  }

  /** The same handles are live in both pools. */
  ghost predicate SameLive<T, U>(p: Pool<T>, q: Pool<U>)
  {
    forall h :: IsLive(p, h) <==> IsLive(q, h)
  }

  /** `pool[h] = v`: only the value behind `h` changes. */
  function Set<T>(p: Pool<T>, h: Handle, v: T): (r: Pool<T>)
    requires IsLive(p, h)
    ensures IsLive(r, h) && Get(r, h) == v
    ensures SameLive(p, r)
    ensures forall g :: IsLive(p, g) && g != h ==> Get(r, g) == Get(p, g)
    ensures forall t :: IsReserved(r, t) <==> IsReserved(p, t)
  {
    Pool(p.records[h.index := Record(h.generation, Occupied(v))])
  }

  /** `Set` keeps the number of slots and every slot other than the handle's. */
  lemma SetKeepsOthers<T>(p: Pool<T>, h: Handle, v: T)
    requires IsLive(p, h)
    ensures |Set(p, h, v).records| == |p.records|
    ensures forall i :: 0 <= i < |p.records| && i != h.index ==> Set(p, h, v).records[i] == p.records[i]
  {
  }

  /** Writing back the value a handle already has changes nothing. */
  lemma SetSame<T>(p: Pool<T>, h: Handle)
    requires IsLive(p, h)
    ensures Set(p, h, Get(p, h)) == p
  {
    assert p.records[h.index := Record(h.generation, Occupied(Get(p, h)))] == p.records;
  }

  /** A second write to the same handle overrides the first. */
  lemma SetTwice<T>(p: Pool<T>, h: Handle, a: T, b: T)
    requires IsLive(p, h)
    ensures Set(Set(p, h, a), h, b) == Set(p, h, b)
  {
  }

  /** Writing to a handle right after putting it back is putting back the written value. */
  lemma PutBackThenSet<T>(p: Pool<T>, t: Ticket, v: T, w: T)
    requires IsReserved(p, t)
    ensures Set(PutBack(p, t, v).0, TicketHandle(p, t), w) == PutBack(p, t, w).0
  {
  }

  /** Lowest vacant slot at or after `i`, or `|rs|` when there is none. */
  function FirstVacant<T>(rs: seq<Record<T>>, i: nat): (r: nat)
    requires i <= |rs|
    ensures i <= r <= |rs|
    ensures r < |rs| ==> rs[r].payload.Vacant?
    ensures forall j :: i <= j < r ==> !rs[j].payload.Vacant?
    decreases |rs| - i
  {
    if i == |rs| || rs[i].payload.Vacant? then i else FirstVacant(rs, i + 1)
  }

  /**
   * Stores `v` and returns its handle: a vacant slot is reused under the next
   * generation, otherwise the pool grows. Reserved slots are never reused.
   */
  function Spawn<T>(p: Pool<T>, v: T): (r: (Pool<T>, Handle))
    ensures IsLive(r.0, r.1) && Get(r.0, r.1) == v
    ensures !IsLive(p, r.1)
    ensures r.1.index < |p.records| ==>
      p.records[r.1.index].payload.Vacant? && r.1.generation == p.records[r.1.index].generation + 1
    ensures r.1.index >= |p.records| ==> r.1.generation == 1
    ensures forall h :: IsLive(p, h) ==> IsLive(r.0, h) && Get(r.0, h) == Get(p, h)
    ensures forall h :: IsLive(r.0, h) ==> h == r.1 || IsLive(p, h)
    ensures forall t :: IsReserved(r.0, t) <==> IsReserved(p, t)
    ensures Valid(p) ==> Valid(r.0)
  {
    var i := FirstVacant(p.records, 0);
    if i < |p.records| then
      var g := p.records[i].generation + 1;
      (Pool(p.records[i := Record(g, Occupied(v))]), Handle(i, g))
    else
      (Pool(p.records + [Record(1, Occupied(v))]), Handle(i, 1))
  }

  /** Moves the value behind `h` out; the slot stays reserved under the same generation. */
  function TakeReserve<T>(p: Pool<T>, h: Handle): (r: (Pool<T>, Ticket, T))
    requires IsLive(p, h)
    ensures r.1 == Ticket(h.index) && r.2 == Get(p, h)
    ensures !IsLive(r.0, h) && IsReserved(r.0, r.1)
    ensures r.0.records[h.index].generation == h.generation
    ensures forall g :: IsLive(p, g) && g != h ==> IsLive(r.0, g) && Get(r.0, g) == Get(p, g)
    ensures forall g :: IsLive(r.0, g) ==> IsLive(p, g)
    ensures forall t :: IsReserved(p, t) ==> IsReserved(r.0, t)
    ensures forall t :: IsReserved(r.0, t) ==> t == r.1 || IsReserved(p, t)
    ensures |r.0.records| == |p.records|
    ensures Valid(p) ==> Valid(r.0)
  {
    (Pool(p.records[h.index := Record(h.generation, Reserved)]), Ticket(h.index), Get(p, h))
  }

  /** The handle `PutBack` will return for `t`: the reserved slot's unchanged generation. */
  function TicketHandle<T>(p: Pool<T>, t: Ticket): Handle
    requires IsReserved(p, t)
  {
    Handle(t.index, p.records[t.index].generation)
  }

  /** Stores `v` back into the reserved slot of `t`. */
  function PutBack<T>(p: Pool<T>, t: Ticket, v: T): (r: (Pool<T>, Handle))
    requires IsReserved(p, t)
    ensures r.1 == TicketHandle(p, t) && !IsLive(p, r.1)
    ensures IsLive(r.0, r.1) && Get(r.0, r.1) == v
    ensures forall g :: IsLive(p, g) ==> IsLive(r.0, g) && Get(r.0, g) == Get(p, g)
    ensures forall g :: IsLive(r.0, g) ==> g == r.1 || IsLive(p, g)
    ensures !IsReserved(r.0, t)
    ensures forall u :: IsReserved(r.0, u) <==> IsReserved(p, u) && u.index != t.index
    ensures |r.0.records| == |p.records|
    ensures Valid(p) ==> Valid(r.0)
  {
    var h := TicketHandle(p, t);
    (Pool(p.records[t.index := Record(h.generation, Occupied(v))]), h)
  }

  /** Gives the reserved slot of `t` up: it becomes vacant and may be reused by `Spawn`. */
  function ForgetTicket<T>(p: Pool<T>, t: Ticket): (r: Pool<T>)
    requires IsReserved(p, t)
    ensures SameLive(p, r)
    ensures forall g :: IsLive(p, g) ==> Get(r, g) == Get(p, g)
    ensures |r.records| == |p.records|
    ensures !IsReserved(r, t) && r.records[t.index].payload.Vacant?
    ensures forall u :: IsReserved(r, u) <==> IsReserved(p, u) && u.index != t.index
    ensures Valid(p) ==> Valid(r)
  {
    Pool(p.records[t.index := Record(p.records[t.index].generation, Vacant)])
  }

  /**
   * The `finalize` of a command that may hold a ticket: forgets it if there is one
   * (a ticket that no longer reserves its slot panics), else leaves the pool alone.
   */
  function ForgetHeld<T>(p: Pool<T>, t: Option<Ticket>): (r: Option<Pool<T>>)
    ensures t.None? ==> r == Some(p)
    ensures t.Some? ==> (r.Some? <==> IsReserved(p, t.value))
    ensures r.Some? ==> SameLive(p, r.value) && (forall g :: IsLive(p, g) ==> Get(r.value, g) == Get(p, g))
    ensures r.Some? && t.Some? ==> forall u :: IsReserved(r.value, u) <==> IsReserved(p, u) && u.index != t.value.index
  {
    match t
    case None => Some(p)
    case Some(x) => if IsReserved(p, x) then Some(ForgetTicket(p, x)) else None
  }

  /** `try_borrow_mut`: the value behind a live handle, nothing for a dead one. */
  function TryBorrow<T>(p: Pool<T>, h: Handle): (r: Option<T>)
    ensures r.Some? <==> IsLive(p, h)
    ensures r.Some? ==> r.value == Get(p, h)
  {
    if IsLive(p, h) then Some(Get(p, h)) else None
  }

  /** Handles of the occupied slots from index `i` on, in index order (`pair_iter`). */
  function LiveFrom<T>(p: Pool<T>, i: nat): (r: seq<Handle>)
    requires i <= |p.records|
    decreases |p.records| - i
  {
    if i == |p.records| then []
    else if p.records[i].payload.Occupied? then [Handle(i, p.records[i].generation)] + LiveFrom(p, i + 1)
    else LiveFrom(p, i + 1)
  }

  /** Live handles in index order, the order the engine iterates a pool in. */
  function LiveHandles<T>(p: Pool<T>): seq<Handle>
  {
    LiveFrom(p, 0)
  }

  lemma {:induction false} LiveFromExact<T>(p: Pool<T>, i: nat)
    requires i <= |p.records|
    ensures forall h :: h in LiveFrom(p, i) <==> IsLive(p, h) && i <= h.index
    ensures forall a, b :: 0 <= a < b < |LiveFrom(p, i)| ==> LiveFrom(p, i)[a].index < LiveFrom(p, i)[b].index
    decreases |p.records| - i
  {
    if i < |p.records| {
      LiveFromExact(p, i + 1);
    }
  }

  /** The iteration visits exactly the live handles, each once, by increasing index. */
  lemma LiveHandlesExact<T>(p: Pool<T>)
    ensures forall h :: h in LiveHandles(p) <==> IsLive(p, h)
    ensures forall a, b :: 0 <= a < b < |LiveHandles(p)| ==> LiveHandles(p)[a].index < LiveHandles(p)[b].index
  {
    LiveFromExact(p, 0);
  }

  /** `NONE` never resolves in a pool whose records have all been spawned. */
  lemma NoneNeverLive<T>(p: Pool<T>)
    ensures Valid(p) ==> !IsLive(p, NONE)
  {
    if Valid(p) && NONE.index < |p.records| {
      assert p.records[0].generation >= 1;
    }
  }

  /**
   * Reserving a live handle and putting the value back with the ticket yields the
   * same handle and exactly the original pool.
   */
  lemma TakeReservePutBack<T>(p: Pool<T>, h: Handle)
    requires IsLive(p, h)
    ensures var (p1, t, v) := TakeReserve(p, h);
      PutBack(p1, t, v) == (p, h)
  {
    var (p1, t, v) := TakeReserve(p, h);
    assert p1.records[h.index := Record(h.generation, Occupied(v))] == p.records;
  }

  /** Conversely, putting a value back and reserving the handle again restores the reservation. */
  lemma PutBackTakeReserve<T>(p: Pool<T>, t: Ticket, v: T)
    requires IsReserved(p, t)
    ensures var (p1, h) := PutBack(p, t, v);
      TakeReserve(p1, h) == (p, t, v)
  {
    var (p1, h) := PutBack(p, t, v);
    assert p1.records[h.index := Record(h.generation, Reserved)] == p.records;
  }

  /**
   * Spawning, reserving and forgetting leaves exactly the original live handles with
   * their values, and the spawned handle never resolves again, even after the slot
   * has been handed out once more.
   */
  lemma SpawnReserveForget<T>(p: Pool<T>, v: T, w: T)
    ensures var (p1, h) := Spawn(p, v);
      var (p2, t, _) := TakeReserve(p1, h);
      var p3 := ForgetTicket(p2, t);
      SameLive(p, p3)
      && (forall g :: IsLive(p, g) ==> Get(p3, g) == Get(p, g))
      && (forall u :: IsReserved(p3, u) <==> IsReserved(p, u))
      && !IsLive(Spawn(p3, w).0, h)
  {
    var (p1, h) := Spawn(p, v);
    var (p2, t, _) := TakeReserve(p1, h);
    var p3 := ForgetTicket(p2, t);
    var (p4, h4) := Spawn(p3, w);
    if h4.index == h.index {
      assert p3.records[h.index].generation == h.generation;
      assert h4.generation == h.generation + 1;
    }
  }

  /** Live handles are pairwise distinct in the index order they are listed in. */
  predicate DistinctIndices(hs: seq<Handle>)
  {
    forall a, b :: 0 <= a < b < |hs| ==> hs[a].index != hs[b].index
  }

  /** Slot indices of a list of handles. */
  function Indices(hs: seq<Handle>): set<nat>
  {
    set h | h in hs :: h.index
  }

  /** Reserving every handle of `hs` in order does not panic: each is live and in its own slot. */
  predicate CanTakeAll<T>(p: Pool<T>, hs: seq<Handle>)
  {
    DistinctIndices(hs) && forall h :: h in hs ==> IsLive(p, h)
  }

  /** Putting every value of `ts` back in order does not panic: each ticket reserves a slot and none repeats. */
  predicate CanPutAll<T>(p: Pool<T>, ts: seq<(Ticket, T)>)
  {
    (forall i :: 0 <= i < |ts| ==> IsReserved(p, ts[i].0))
    && (forall a, b :: 0 <= a < b < |ts| ==> ts[a].0 != ts[b].0)
  }

  /** The tickets of a list of (ticket, value) pairs. */
  function TicketsOf<T>(ts: seq<(Ticket, T)>): (r: seq<Ticket>)
    ensures |r| == |ts| && forall i :: 0 <= i < |ts| ==> r[i] == ts[i].0
  {
    seq(|ts|, i requires 0 <= i < |ts| => ts[i].0)
  }

  /** Reserves every handle of `hs` in order, collecting the tickets and values. */
  function TakeAll<T>(p: Pool<T>, hs: seq<Handle>): (r: (Pool<T>, seq<(Ticket, T)>))
    requires DistinctIndices(hs) && forall h :: h in hs ==> IsLive(p, h)
    ensures |r.1| == |hs| && |r.0.records| == |p.records|
    ensures forall i :: 0 <= i < |hs| ==> r.1[i].0 == Ticket(hs[i].index) && r.1[i].1 == Get(p, hs[i])
    ensures ReservedExactly(p, r.0, Indices(hs))
    ensures forall g :: IsLive(r.0, g) <==> IsLive(p, g) && g.index !in Indices(hs)
    ensures forall g :: IsLive(r.0, g) ==> Get(r.0, g) == Get(p, g)
    decreases |hs|
  {
    if hs == [] then (p, [])
    else
      var h := hs[0];
      assert h in hs && IsLive(p, h);
      var p1 := Pool(p.records[h.index := Record(h.generation, Reserved)]);
      TakeAllTail(p, hs, p1);
      var (p2, rest) := TakeAll(p1, hs[1..]);
      TakeAllStep(p, hs, p1, p2, rest);
      (p2, [(Ticket(h.index), Get(p, h))] + rest)
  }

  /** The contract of `TakeAll` for a non-empty list, from the first reservation and the contract for the rest. */
  lemma TakeAllStep<T>(p: Pool<T>, hs: seq<Handle>, p1: Pool<T>, p2: Pool<T>, rest: seq<(Ticket, T)>)
    requires hs != [] && forall h :: h in hs ==> IsLive(p, h)
    requires ReservedExactly(p, p1, {hs[0].index}) && Indices(hs) == {hs[0].index} + Indices(hs[1..])
    requires forall g :: g in hs[1..] ==> IsLive(p1, g) && Get(p1, g) == Get(p, g)
    requires |rest| == |hs[1..]| && ReservedExactly(p1, p2, Indices(hs[1..]))
    requires forall i :: 0 <= i < |hs[1..]| ==> rest[i].0 == Ticket(hs[1..][i].index) && rest[i].1 == Get(p1, hs[1..][i])
    ensures var r := [(Ticket(hs[0].index), Get(p, hs[0]))] + rest;
      |r| == |hs| && |p2.records| == |p.records|
      && (forall i :: 0 <= i < |hs| ==> r[i].0 == Ticket(hs[i].index) && r[i].1 == Get(p, hs[i]))
      && ReservedExactly(p, p2, Indices(hs))
      && (forall g :: IsLive(p2, g) <==> IsLive(p, g) && g.index !in Indices(hs))
      && (forall g :: IsLive(p2, g) ==> Get(p2, g) == Get(p, g))
  {
    ReserveThenReserved(p, hs[0], p1, p2, Indices(hs[1..]));
    ReservedSlots(p, p2, Indices(hs));
    var r := [(Ticket(hs[0].index), Get(p, hs[0]))] + rest;
    forall i | 1 <= i < |hs| ensures r[i].0 == Ticket(hs[i].index) && r[i].1 == Get(p, hs[i]) {
      assert r[i] == rest[i - 1] && hs[i] == hs[1..][i - 1] && hs[i] in hs[1..];
    }
  }

  /** After the first handle's slot is reserved, the rest of `hs` can still be taken, with the same values. */
  lemma TakeAllTail<T>(p: Pool<T>, hs: seq<Handle>, p1: Pool<T>)
    requires DistinctIndices(hs) && (forall h :: h in hs ==> IsLive(p, h)) && hs != [] && IsLive(p, hs[0])
    requires p1 == Pool(p.records[hs[0].index := Record(hs[0].generation, Reserved)])
    ensures ReservedExactly(p, p1, {hs[0].index})
    ensures DistinctIndices(hs[1..])
    ensures forall g :: g in hs[1..] ==> IsLive(p1, g) && Get(p1, g) == Get(p, g)
    ensures Indices(hs) == {hs[0].index} + Indices(hs[1..])
  {
    var h := hs[0];
    assert IsLive(p, h);
    forall a, b | 0 <= a < b < |hs[1..]|
      ensures hs[1..][a].index != hs[1..][b].index
    {
      assert hs[1..][a] == hs[a + 1] && hs[1..][b] == hs[b + 1];
    }
    forall g | g in hs[1..]
      ensures IsLive(p1, g) && Get(p1, g) == Get(p, g)
    {
      assert g in hs && g.index != h.index;
      assert IsLive(p, g) && p1.records[g.index] == p.records[g.index];
    }
    assert hs == [hs[0]] + hs[1..];
  }

  /** `r` is `p` with exactly the slots `ix` reserved. */
  ghost predicate ReservedExactly<T>(p: Pool<T>, r: Pool<T>, ix: set<nat>)
  {
    |r.records| == |p.records|
    && forall i :: 0 <= i < |p.records| ==>
      r.records[i] == if i in ix then Record(p.records[i].generation, Reserved) else p.records[i]
  }

  /** Reserving the slot of `h`, then the slots `ix`, reserves the slots `{h.index} + ix`. */
  lemma ReserveThenReserved<T>(p: Pool<T>, h: Handle, p1: Pool<T>, p2: Pool<T>, ix: set<nat>)
    requires ReservedExactly(p, p1, {h.index}) && ReservedExactly(p1, p2, ix)
    ensures ReservedExactly(p, p2, {h.index} + ix)
  {
  }

  /** A pool whose slots `ix` were reserved and whose other records are unchanged. */
  lemma ReservedSlots<T>(p: Pool<T>, r: Pool<T>, ix: set<nat>)
    requires ReservedExactly(p, r, ix)
    ensures forall g :: IsLive(r, g) <==> IsLive(p, g) && g.index !in ix
    ensures forall g :: IsLive(r, g) ==> Get(r, g) == Get(p, g)
  {
  }

  /** The tickets of `TakeAll` are pairwise distinct and each reserves its handle's slot. */
  lemma TakeAllTickets<T>(p: Pool<T>, hs: seq<Handle>)
    requires DistinctIndices(hs) && forall h :: h in hs ==> IsLive(p, h)
    ensures var (p1, ts) := TakeAll(p, hs);
      (forall a, b :: 0 <= a < b < |ts| ==> ts[a].0 != ts[b].0)
      && (forall i :: 0 <= i < |ts| ==> IsReserved(p1, ts[i].0) && TicketHandle(p1, ts[i].0) == hs[i])
      && (forall g :: IsLive(p1, g) <==> IsLive(p, g) && g.index !in Indices(hs))
  {
    var (p1, ts) := TakeAll(p, hs);
    forall i | 0 <= i < |ts| ensures IsReserved(p1, ts[i].0) && TicketHandle(p1, ts[i].0) == hs[i] {
      assert hs[i].index in Indices(hs);
    }
  }

  /** Puts every (ticket, value) back in order and returns the handles in the same order. */
  function PutAll<T>(p: Pool<T>, ts: seq<(Ticket, T)>): (r: (Pool<T>, seq<Handle>))
    requires forall i :: 0 <= i < |ts| ==> IsReserved(p, ts[i].0)
    requires forall a, b :: 0 <= a < b < |ts| ==> ts[a].0 != ts[b].0
    ensures |r.1| == |ts| && |r.0.records| == |p.records|
    ensures forall i :: 0 <= i < |ts| ==> r.1[i] == TicketHandle(p, ts[i].0)
    ensures forall i :: 0 <= i < |ts| ==> IsLive(r.0, r.1[i]) && Get(r.0, r.1[i]) == ts[i].1
    ensures forall g :: IsLive(p, g) ==> IsLive(r.0, g) && Get(r.0, g) == Get(p, g)
    ensures forall g :: IsLive(r.0, g) ==> IsLive(p, g) || g in r.1
    decreases |ts|
  {
    if ts == [] then (p, [])
    else
      var (p1, h) := PutBack(p, ts[0].0, ts[0].1);
      PutAllTail(p, ts, p1);
      var (p2, hs) := PutAll(p1, ts[1..]);
      PutAllStep(p, ts, p1, h, p2, hs);
      (p2, [h] + hs)
  }

  /** After the first ticket's value is back, the other tickets are still reserved, distinct and name the same handles. */
  lemma PutAllTail<T>(p: Pool<T>, ts: seq<(Ticket, T)>, p1: Pool<T>)
    requires ts != [] && forall i :: 0 <= i < |ts| ==> IsReserved(p, ts[i].0)
    requires forall a, b :: 0 <= a < b < |ts| ==> ts[a].0 != ts[b].0
    requires p1 == PutBack(p, ts[0].0, ts[0].1).0
    ensures forall i :: 0 <= i < |ts[1..]| ==>
      IsReserved(p1, ts[1..][i].0) && TicketHandle(p1, ts[1..][i].0) == TicketHandle(p, ts[1..][i].0)
    ensures forall a, b :: 0 <= a < b < |ts[1..]| ==> ts[1..][a].0 != ts[1..][b].0
  {
    forall i | 0 <= i < |ts[1..]| ensures IsReserved(p1, ts[1..][i].0) && TicketHandle(p1, ts[1..][i].0) == TicketHandle(p, ts[1..][i].0) {
      assert ts[1..][i] == ts[i + 1] && ts[i + 1].0 != ts[0].0;
    }
    forall a, b | 0 <= a < b < |ts[1..]| ensures ts[1..][a].0 != ts[1..][b].0 {
      assert ts[1..][a] == ts[a + 1] && ts[1..][b] == ts[b + 1];
    }
  }

  /** The contract of `PutAll` for a non-empty list, from that of its first `PutBack` and of the rest. */
  lemma PutAllStep<T>(p: Pool<T>, ts: seq<(Ticket, T)>, p1: Pool<T>, h: Handle, p2: Pool<T>, hs: seq<Handle>)
    requires ts != [] && forall i :: 0 <= i < |ts| ==> IsReserved(p, ts[i].0)
    requires (p1, h) == PutBack(p, ts[0].0, ts[0].1)
    requires forall i :: 0 <= i < |ts[1..]| ==>
      IsReserved(p1, ts[1..][i].0) && TicketHandle(p1, ts[1..][i].0) == TicketHandle(p, ts[1..][i].0)
    requires |hs| == |ts[1..]| && |p2.records| == |p1.records|
    requires forall i :: 0 <= i < |ts[1..]| ==> hs[i] == TicketHandle(p1, ts[1..][i].0)
    requires forall i :: 0 <= i < |ts[1..]| ==> IsLive(p2, hs[i]) && Get(p2, hs[i]) == ts[1..][i].1
    requires forall g :: IsLive(p1, g) ==> IsLive(p2, g) && Get(p2, g) == Get(p1, g)
    requires forall g :: IsLive(p2, g) ==> IsLive(p1, g) || g in hs
    ensures var r := [h] + hs;
      |r| == |ts| && |p2.records| == |p.records|
      && (forall i :: 0 <= i < |ts| ==> r[i] == TicketHandle(p, ts[i].0))
      && (forall i :: 0 <= i < |ts| ==> IsLive(p2, r[i]) && Get(p2, r[i]) == ts[i].1)
      && (forall g :: IsLive(p, g) ==> IsLive(p2, g) && Get(p2, g) == Get(p, g))
      && (forall g :: IsLive(p2, g) ==> IsLive(p, g) || g in r)
  {
    var r := [h] + hs;
    forall i | 0 < i < |ts| ensures r[i] == TicketHandle(p, ts[i].0) && IsLive(p2, r[i]) && Get(p2, r[i]) == ts[i].1 {
      assert r[i] == hs[i - 1] && ts[i] == ts[1..][i - 1];
    }
  }

  /** Forgets every ticket in order. */
  function ForgetAll<T>(p: Pool<T>, ts: seq<Ticket>): (r: Pool<T>)
    requires forall i :: 0 <= i < |ts| ==> IsReserved(p, ts[i])
    requires forall a, b :: 0 <= a < b < |ts| ==> ts[a] != ts[b]
    ensures SameLive(p, r)
    ensures forall g :: IsLive(p, g) ==> Get(r, g) == Get(p, g)
    ensures forall u :: IsReserved(r, u) <==> IsReserved(p, u) && u !in ts
    ensures |r.records| == |p.records|
    decreases |ts|
  {
    if ts == [] then p
    else
      assert forall i :: 1 <= i < |ts| ==> ts[i] == ts[1..][i - 1];
      ForgetAll(ForgetTicket(p, ts[0]), ts[1..])
  }

  /** Every handle `PutAll` gives back stays live in any pool where all of its live handles stay live. */
  lemma PutAllStaysLive<T>(p: Pool<T>, ts: seq<(Ticket, T)>, q: Pool<T>)
    requires CanPutAll(p, ts)
    requires forall x :: IsLive(PutAll(p, ts).0, x) ==> IsLive(q, x)
    ensures forall i :: 0 <= i < |ts| ==> IsLive(q, TicketHandle(p, ts[i].0))
  {
    var (p1, hs) := PutAll(p, ts);
    forall i | 0 <= i < |ts| ensures IsLive(q, TicketHandle(p, ts[i].0)) {
      assert IsLive(p1, hs[i]);
    }
  }

  /** Putting a handle in front of distinct handles of other slots keeps them distinct. */
  lemma DistinctCons(h: Handle, hs: seq<Handle>)
    requires DistinctIndices(hs) && forall x :: x in hs ==> x.index != h.index
    ensures DistinctIndices([h] + hs)
  {
    var r := [h] + hs;
    forall a, b | 0 <= a < b < |r| ensures r[a].index != r[b].index {
      assert r[b] == hs[b - 1];
      if a > 0 {
        assert r[a] == hs[a - 1];
      }
    }
  }

  /** The tail of a list with distinct slot indices has distinct slot indices. */
  lemma DistinctTail(hs: seq<Handle>)
    requires hs != [] && DistinctIndices(hs)
    ensures DistinctIndices(hs[1..])
    ensures forall h :: h in hs[1..] ==> h in hs && h.index != hs[0].index
    ensures hs[0].index !in Indices(hs[1..])
  {
    forall a, b | 0 <= a < b < |hs[1..]| ensures hs[1..][a].index != hs[1..][b].index {
      assert hs[1..][a] == hs[a + 1] && hs[1..][b] == hs[b + 1];
    }
    assert forall h :: h in hs[1..] ==> exists j :: 1 <= j < |hs| && hs[j] == h;
  }

  /**
   * Putting back, in order, the values taken from the live handles `hs` of `p`
   * into a pool where exactly their slots are reserved gives back `p` and `hs`.
   */
  lemma {:induction false} PutAllRestores<T>(p: Pool<T>, q: Pool<T>, hs: seq<Handle>, ts: seq<(Ticket, T)>)
    requires DistinctIndices(hs) && forall h :: h in hs ==> IsLive(p, h)
    requires |ts| == |hs| && forall i :: 0 <= i < |hs| ==> ts[i] == (Ticket(hs[i].index), Get(p, hs[i]))
    requires ReservedExactly(p, q, Indices(hs))
    ensures CanPutAll(q, ts) && PutAll(q, ts) == (p, hs)
    decreases |hs|
  {
    forall i | 0 <= i < |ts| ensures IsReserved(q, ts[i].0) {
      assert hs[i] in hs && hs[i].index in Indices(hs);
    }
    if hs == [] {
      assert q.records == p.records;
    } else {
      var (q1, h1) := PutBack(q, ts[0].0, ts[0].1);
      PutBackRestoresFirst(p, q, hs, ts);
      PutAllRestores(p, q1, hs[1..], ts[1..]);
      assert hs == [h1] + hs[1..];
    }
  }

  /** The first step of `PutAllRestores`: the first value goes back to the first handle, leaving the others reserved. */
  lemma PutBackRestoresFirst<T>(p: Pool<T>, q: Pool<T>, hs: seq<Handle>, ts: seq<(Ticket, T)>)
    requires DistinctIndices(hs) && (forall h :: h in hs ==> IsLive(p, h)) && hs != []
    requires |ts| == |hs| && forall i :: 0 <= i < |hs| ==> ts[i] == (Ticket(hs[i].index), Get(p, hs[i]))
    requires ReservedExactly(p, q, Indices(hs))
    ensures IsReserved(q, ts[0].0)
    ensures var (q1, h1) := PutBack(q, ts[0].0, ts[0].1);
      h1 == hs[0] && ReservedExactly(p, q1, Indices(hs[1..]))
      && DistinctIndices(hs[1..]) && (forall h :: h in hs[1..] ==> IsLive(p, h))
      && |ts[1..]| == |hs[1..]| && forall i :: 0 <= i < |hs[1..]| ==> ts[1..][i] == (Ticket(hs[1..][i].index), Get(p, hs[1..][i]))
  {
    var h := hs[0];
    assert h in hs && h.index in Indices(hs);
    DistinctTail(hs);
    assert Indices(hs) == {h.index} + Indices(hs[1..]);
  }

  /**
   * Reserving a list of live handles with distinct slots and putting the values
   * back in the same order yields the same handles and exactly the original pool.
   */
  lemma TakeAllPutAll<T>(p: Pool<T>, hs: seq<Handle>)
    requires DistinctIndices(hs) && forall h :: h in hs ==> IsLive(p, h)
    ensures var (p1, ts) := TakeAll(p, hs);
      (forall a, b :: 0 <= a < b < |ts| ==> ts[a].0 != ts[b].0)
      && (forall i :: 0 <= i < |ts| ==> IsReserved(p1, ts[i].0))
      && PutAll(p1, ts) == (p, hs)
  {
    TakeAllTickets(p, hs);
    var (p1, ts) := TakeAll(p, hs);
    PutAllRestores(p, p1, hs, ts);
  }


  /** `TakeAllPutAll` for two handles, with the tickets written out as a pair. */
  lemma TakePairPutPair<T>(p: Pool<T>, a: Handle, b: Handle)
    requires CanTakeAll(p, [a, b])
    ensures var (p1, ts) := TakeAll(p, [a, b]);
      |ts| == 2 && CanPutAll(p1, [ts[0], ts[1]]) && PutAll(p1, [ts[0], ts[1]]) == (p, [a, b])
  {
    TakeAllPutAll(p, [a, b]);
    var (p1, ts) := TakeAll(p, [a, b]);
    assert [ts[0], ts[1]] == ts;
  }

  /** `TakeAllPutAll` stated with `CanTakeAll` and `CanPutAll`. */
  lemma TakeAllPutAllExact<T>(p: Pool<T>, hs: seq<Handle>)
    requires CanTakeAll(p, hs)
    ensures var (p1, ts) := TakeAll(p, hs); CanPutAll(p1, ts) && PutAll(p1, ts) == (p, hs)
  {
    TakeAllPutAll(p, hs);
  }
}
