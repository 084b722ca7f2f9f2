/**
 * The editor's physics world: pools of rigid bodies, colliders and joints, and
 * the binder associating scene nodes with the bodies that drive them.
 */
module PhysicsWorld {
  import opened Pools
  import opened Entities

  /** Node to body association kept in both directions (`BiDirHashMap`). */
  datatype Binder = Binder(forward: map<Handle, Handle>, backward: map<Handle, Handle>)

  const EmptyBinder: Binder := Binder(map[], map[])

  /** The two directions are inverse to each other (a one-to-one association). */
  predicate Consistent(b: Binder)
  {
    (forall k :: k in b.forward ==> b.forward[k] in b.backward && b.backward[b.forward[k]] == k)
    && (forall v :: v in b.backward ==> b.backward[v] in b.forward && b.forward[b.backward[v]] == v)
  }

  /** `value_of`: the body bound to a node. */
  function ValueOf(b: Binder, node: Handle): (r: Option<Handle>)
    ensures r.Some? <==> node in b.forward
    ensures r.Some? ==> r.value == b.forward[node]
  {
    if node in b.forward then Some(b.forward[node]) else None
  }

  /** `insert`: binds `node` to `body` in both directions. */
  function BinderInsert(b: Binder, node: Handle, body: Handle): (r: Binder)
    ensures ValueOf(r, node) == Some(body) && body in r.backward && r.backward[body] == node
    ensures forall k :: k != node ==> ValueOf(r, k) == ValueOf(b, k)
  {
    Binder(b.forward[node := body], b.backward[body := node])
  }

  /** `remove_by_key`: unbinds `node` (and its body in the backward direction). */
  function RemoveByKey(b: Binder, node: Handle): (r: Binder)
    ensures node !in r.forward
    ensures forall k :: k != node ==> ValueOf(r, k) == ValueOf(b, k)
    ensures node in b.forward ==> b.forward[node] !in r.backward
  {
    if node in b.forward then Binder(b.forward - {node}, b.backward - {b.forward[node]}) else b
  }

  /** `remove_by_value`: unbinds whichever node `body` is bound to and returns it. */
  function RemoveByValue(b: Binder, body: Handle): (r: (Binder, Option<Handle>))
    ensures body !in r.0.backward
    ensures r.1.Some? <==> body in b.backward
    ensures r.1.Some? ==> r.1.value == b.backward[body] && r.1.value !in r.0.forward
    ensures r.1.None? ==> r.0 == b
  {
    if body in b.backward then
      var node := b.backward[body];
      (Binder(b.forward - {node}, b.backward - {body}), Some(node))
    else
      (b, None)
  }

  /** Removing a binding and inserting it again restores a consistent binder. */
  lemma RemoveByValueInsert(b: Binder, body: Handle)
    requires Consistent(b) && body in b.backward
    ensures var (b1, node) := RemoveByValue(b, body);
      BinderInsert(b1, node.value, body) == b
  {
    var (b1, node) := RemoveByValue(b, body);
    assert b1.forward[node.value := body] == b.forward;
    assert b1.backward[body := node.value] == b.backward;
  }

  /** Removing a node's binding and inserting it again restores a consistent binder. */
  lemma RemoveByKeyInsert(b: Binder, node: Handle)
    requires Consistent(b) && node in b.forward
    ensures BinderInsert(RemoveByKey(b, node), node, b.forward[node]) == b
  {
    var b1 := RemoveByKey(b, node);
    assert b1.forward[node := b.forward[node]] == b.forward;
    assert b1.backward[b.forward[node] := node] == b.backward;
  }

  datatype Physics = Physics(
    bodies: Pool<RigidBody>,
    colliders: Pool<Collider>,
    joints: Pool<Joint>,
    binder: Binder)

  const EmptyPhysics: Physics := Physics(EmptyPool(), EmptyPool(), EmptyPool(), EmptyBinder)

  /** `unbind_by_body`: removes the binding of `body`; the node it was bound to, or `NONE`. */
  function UnbindByBody(ph: Physics, body: Handle): (r: (Physics, Handle))
    ensures r.0 == ph.(binder := r.0.binder) && body !in r.0.binder.backward
    ensures body in ph.binder.backward ==> r.1 == ph.binder.backward[body] && r.1 !in r.0.binder.forward
    ensures body !in ph.binder.backward ==> r == (ph, NONE)
  {
    var (b, node) := RemoveByValue(ph.binder, body);
    (ph.(binder := b), if node.Some? then node.value else NONE)
  }

  /** First joint of `hs` whose first body is `body`, or `NONE`. */
  function FindJointFrom(joints: Pool<Joint>, hs: seq<Handle>, body: Handle): (r: Handle)
    requires NONE !in hs && forall h :: h in hs ==> IsLive(joints, h)
    ensures r != NONE ==> r in hs && Get(joints, r).body1 == body
    ensures r == NONE ==> forall h :: h in hs ==> Get(joints, h).body1 != body
  {
    if hs == [] then NONE
    else if Get(joints, hs[0]).body1 == body then hs[0]
    else FindJointFrom(joints, hs[1..], body)
  }

  /** `find_joint`: the first joint whose first body is `body`, or `NONE`. */
  function FindJoint(ph: Physics, body: Handle): (r: Handle)
    requires Valid(ph.joints)
    ensures r != NONE ==> IsLive(ph.joints, r) && Get(ph.joints, r).body1 == body
    ensures r == NONE ==> forall h :: IsLive(ph.joints, h) ==> Get(ph.joints, h).body1 != body
  {
    LiveHandlesExact(ph.joints);
    NoneNeverLive(ph.joints);
    FindJointFrom(ph.joints, LiveHandles(ph.joints), body)
  }
}
