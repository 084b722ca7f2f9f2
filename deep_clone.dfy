/**
 * Copying a selection of sub-graphs from one scene (graph and physics) into
 * another, as the clipboard does when it is filled and when it pastes: every
 * node is copied, and every node bound to a rigid body brings a copy of that
 * body and of the body's colliders along, bound to the copied node.
 */
module DeepClones {
  import opened Pools
  import opened Entities
  import opened SceneGraph
  import opened PhysicsWorld
  import opened Selections

  /** The handles a list holds. */
  function Listed(xs: seq<Handle>): set<Handle>
  {
    set x | x in xs
  }

  /** No two originals share a copy. */
  ghost predicate Unshared(m: map<Handle, Handle>)
  {
    forall d, e :: d in m && e in m && d != e ==> m[d] != m[e]
  }

  /** Originals mapped to copies that are live afterwards, were not live before, and are not shared. */
  ghost predicate FreshCopies(before: Pool<Node>, after: Pool<Node>, m: map<Handle, Handle>)
  {
    (forall d :: d in m ==> IsLive(after, m[d]) && !IsLive(before, m[d]))
    && (forall d, e :: d in m && e in m && d != e ==> m[d] != m[e])
  }

  /** Spawns a raw copy of every node of `ns`, in order, recording original to copy. */
  function SpawnCopies(dest: Pool<Node>, src: Graph, ns: seq<Handle>): (r: (Pool<Node>, map<Handle, Handle>))
    requires forall h :: h in ns ==> IsLive(src.pool, h)
    ensures r.1.Keys == Listed(ns)
    ensures FreshCopies(dest, r.0, r.1)
    ensures forall d :: d in r.1 ==> Get(r.0, r.1[d]) == RawCopy(Get(src.pool, d))
    ensures forall h :: IsLive(dest, h) ==> IsLive(r.0, h) && Get(r.0, h) == Get(dest, h)
    decreases |ns|
  {
    if ns == [] then (dest, map[])
    else
      var init := ns[..|ns| - 1];
      var d := ns[|ns| - 1];
      assert ns == init + [d];
      var (p1, m1) := SpawnCopies(dest, src, init);
      var (p2, h) := Spawn(p1, RawCopy(Get(src.pool, d)));
      (p2, m1[d := h])
  }

  /**
   * Where the copy of `d` hangs once linked: the copy of `root` under the
   * destination's root, every other copy under the copy of its original's parent,
   * or under nothing when that parent was not copied.
   */
  function CopyParent(src: Graph, m: map<Handle, Handle>, root: Handle, destRoot: Handle, d: Handle): Handle
    requires IsLive(src.pool, d)
  {
    if d == root then destRoot
    else if Get(src.pool, d).parent in m then m[Get(src.pool, d).parent]
    else NONE
  }

  /** The copy of `d` once linked: `d`'s own data, its parent's copy, and its children's copies in their order. */
  function LinkedCopy(src: Graph, m: map<Handle, Handle>, root: Handle, destRoot: Handle, d: Handle): Node
    requires IsLive(src.pool, d) && forall c :: c in Children(src, d) ==> c in m
  {
    Get(src.pool, d).(parent := CopyParent(src, m, root, destRoot, d), children := Mapped(Children(src, d), m))
  }

  /**
   * Gives the copy of every node of `ns` its links. The links `copy_node` builds
   * by adding each copy and then linking it under its parent's copy are written
   * here directly: the copy of each node of `ns` becomes its `LinkedCopy`, the
   * copies of other nodes and every node of `before` are left alone.
   */
  function LinkCopies(p: Pool<Node>, src: Graph, m: map<Handle, Handle>, root: Handle, destRoot: Handle, ghost before: Pool<Node>, ns: seq<Handle>): (r: Pool<Node>)
    requires Unshared(m)
    requires forall d :: d in ns ==> d in m && IsLive(src.pool, d) && IsLive(p, m[d]) && !IsLive(before, m[d])
    requires forall d, c :: d in ns && c in Children(src, d) ==> c in m
    ensures SameLive(p, r)
    ensures forall d :: d in ns ==> Get(r, m[d]) == LinkedCopy(src, m, root, destRoot, d)
    ensures forall e :: e in m && e !in ns && IsLive(p, m[e]) ==> Get(r, m[e]) == Get(p, m[e])
    ensures forall x :: IsLive(p, x) && IsLive(before, x) ==> Get(r, x) == Get(p, x)
    decreases |ns|
  {
    if ns == [] then p
    else
      var d := ns[0];
      var p1 := Set(p, m[d], LinkedCopy(src, m, root, destRoot, d));
      LinkCopies(p1, src, m, root, destRoot, before, ns[1..])
  }

  /**
   * The copy of `d` in `g` reproduces `d`'s place in the hierarchy: it lists the
   * copies of `d`'s children in their order, and the copy of each such child that
   * names `d` as its parent (other than the copied roots `tops`) names `d`'s copy
   * as its parent.
   */
  ghost predicate CopiedAt(src: Graph, g: Graph, m: map<Handle, Handle>, d: Handle, tops: set<Handle>)
  {
    d in m && IsLive(src.pool, d) && IsLive(g.pool, m[d])
    && (forall c :: c in Children(src, d) ==> c in m && IsLive(g.pool, m[c]))
    && Get(g.pool, m[d]).children == Mapped(Children(src, d), m)
    && forall c :: c in Children(src, d) && c !in tops && IsLive(src.pool, c) && Get(src.pool, c).parent == d ==>
         Get(g.pool, m[c]).parent == m[d]
  }

  /** The copies in `g` reproduce the hierarchy of the originals `ds`. */
  ghost predicate HierarchyCopied(src: Graph, g: Graph, m: map<Handle, Handle>, ds: set<Handle>, tops: set<Handle>)
  {
    forall d :: d in ds ==> CopiedAt(src, g, m, d, tops)
  }

  /** `CopiedAt` carries over to a map and a pool that agree on `d`, its children and their copies, and to more roots. */
  lemma CopiedAtTransfer(src: Graph, g: Graph, a: map<Handle, Handle>, d: Handle, ta: set<Handle>, g': Graph, b: map<Handle, Handle>, tb: set<Handle>)
    requires CopiedAt(src, g, a, d, ta) && ta <= tb
    requires d in b && b[d] == a[d] && forall c :: c in Children(src, d) ==> c in b && b[c] == a[c]
    requires IsLive(g'.pool, a[d]) && Get(g'.pool, a[d]) == Get(g.pool, a[d])
    requires forall c :: c in Children(src, d) ==> IsLive(g'.pool, a[c]) && Get(g'.pool, a[c]) == Get(g.pool, a[c])
    ensures CopiedAt(src, g', b, d, tb)
  {
    MappedAgree(Children(src, d), a, b);
  }

  /**
   * `g` and `m` are what copying the sub-graph of `root` into `dest` gives: a fresh
   * copy of every node of the sub-graph, holding its original's data and hierarchy,
   * the copy of `root` appended to the children of `dest`'s root and naming it as
   * its parent, and no other node of `dest` changed.
   */
  ghost predicate NodeCopied(src: Graph, root: Handle, dest: Graph, g: Graph, m: map<Handle, Handle>)
  {
    g.root == dest.root
    && Traverse(src, root).Some?
    && m.Keys == Listed(Traverse(src, root).value)
    && FreshCopies(dest.pool, g.pool, m)
    && (forall d :: d in m ==> IsLive(src.pool, d) && RawCopy(Get(g.pool, m[d])) == RawCopy(Get(src.pool, d)))
    && (forall h :: IsLive(dest.pool, h) ==> IsLive(g.pool, h))
    && (forall h :: IsLive(dest.pool, h) && h != dest.root ==> Get(g.pool, h) == Get(dest.pool, h))
    && IsLive(dest.pool, dest.root)
    && Get(g.pool, dest.root) == Get(dest.pool, dest.root).(children := Get(dest.pool, dest.root).children + [m[root]])
    && IsLive(g.pool, m[root]) && Get(g.pool, m[root]).parent == dest.root
    && HierarchyCopied(src, g, m, m.Keys, {root})
  }

  /**
   * `Graph::copy_node`: copies the sub-graph of `root` into `dest` (children in
   * their original order, the copy of `root` appended to the children of `dest`'s
   * root) and returns the original-to-copy mapping; no node of `dest` other than
   * its root changes. `None` when the traversal or `dest`'s root panics.
   */
  function CopyNode(src: Graph, root: Handle, dest: Graph): (r: Option<(Graph, map<Handle, Handle>)>)
    ensures r.Some? <==> Traverse(src, root).Some? && IsLive(dest.pool, dest.root)
    ensures r.Some? ==> NodeCopied(src, root, dest, r.value.0, r.value.1)
  {
    match Traverse(src, root)
    case None => None
    case Some(ns) =>
      if !IsLive(dest.pool, dest.root) then None
      else
        TraverseClosed(src, root);
        var (p1, m) := SpawnCopies(dest.pool, src, ns);
        var p2 := LinkCopies(p1, src, m, root, dest.root, dest.pool, ns);
        var top := Get(p2, dest.root);
        var p3 := Set(p2, dest.root, top.(children := top.children + [m[root]]));
        CopyNodeLinks(src, root, dest, ns, p1, m, p2, p3);
        LinkedHierarchy(src, Graph(p3, dest.root), m, root, dest.root);
        Some((Graph(p3, dest.root), m))
  }

  /** The linking steps of `CopyNode` leave the destination's other nodes alone and give every copy its links. */
  lemma CopyNodeLinks(src: Graph, root: Handle, dest: Graph, ns: seq<Handle>, p1: Pool<Node>, m: map<Handle, Handle>, p2: Pool<Node>, p3: Pool<Node>)
    requires Traverse(src, root) == Some(ns) && IsLive(dest.pool, dest.root)
    requires forall d, c :: d in ns && c in Children(src, d) ==> c in ns
    requires (p1, m) == SpawnCopies(dest.pool, src, ns)
    requires p2 == LinkCopies(p1, src, m, root, dest.root, dest.pool, ns)
    requires root in m && IsLive(p2, dest.root)
    requires p3 == Set(p2, dest.root, Get(p2, dest.root).(children := Get(p2, dest.root).children + [m[root]]))
    ensures FreshCopies(dest.pool, p3, m)
    ensures forall d :: d in m ==> IsLive(src.pool, d) && (forall c :: c in Children(src, d) ==> c in m)
    ensures forall d :: d in m ==> Get(p3, m[d]) == LinkedCopy(src, m, root, dest.root, d)
    ensures forall h :: IsLive(dest.pool, h) ==> IsLive(p3, h)
    ensures forall h :: IsLive(dest.pool, h) && h != dest.root ==> Get(p3, h) == Get(dest.pool, h)
    ensures Get(p3, dest.root) == Get(dest.pool, dest.root).(children := Get(dest.pool, dest.root).children + [m[root]])
  {
    forall d | d in m ensures Get(p3, m[d]) == LinkedCopy(src, m, root, dest.root, d) {
      assert m[d] != dest.root;
    }
  }

  /** Copies holding their linked values reproduce the hierarchy of their originals. */
  lemma LinkedHierarchy(src: Graph, g: Graph, m: map<Handle, Handle>, root: Handle, destRoot: Handle)
    requires forall d :: d in m ==> IsLive(src.pool, d) && (forall c :: c in Children(src, d) ==> c in m)
    requires forall d :: d in m ==> IsLive(g.pool, m[d]) && Get(g.pool, m[d]) == LinkedCopy(src, m, root, destRoot, d)
    ensures HierarchyCopied(src, g, m, m.Keys, {root})
    ensures root in m ==> Get(g.pool, m[root]).parent == destRoot
    ensures forall d :: d in m ==> RawCopy(Get(g.pool, m[d])) == RawCopy(Get(src.pool, d))
  {
    forall d, c | d in m && c in Children(src, d) && c != root && IsLive(src.pool, c) && Get(src.pool, c).parent == d
      ensures Get(g.pool, m[c]).parent == m[d]
    {
      assert CopyParent(src, m, root, destRoot, c) == m[d];
    }
  }

  /** Every node of every root's sub-graph has a copy in `m`. */
  ghost predicate CoversRoots(src: Graph, roots: seq<Handle>, m: map<Handle, Handle>)
  {
    forall x :: x in roots ==> Traverse(src, x).Some? && forall d :: d in Traverse(src, x).value ==> d in m
  }

  /** The nodes of the sub-graph of `x`, when its traversal succeeds. */
  ghost function Reached(src: Graph, x: Handle): set<Handle>
  {
    if Traverse(src, x).Some? then Listed(Traverse(src, x).value) else {}
  }

  /** The nodes of the sub-graphs of all of `roots`. */
  ghost function Covered(src: Graph, roots: seq<Handle>): set<Handle>
    decreases |roots|
  {
    if roots == [] then {} else Covered(src, roots[..|roots| - 1]) + Reached(src, roots[|roots| - 1])
  }

  /**
   * No node lies in the sub-graphs of two of the roots (so no root is listed
   * twice, and none lies below another), as for the root nodes of a selection.
   */
  ghost predicate DisjointRoots(src: Graph, roots: seq<Handle>)
    decreases |roots|
  {
    roots == []
    || (DisjointRoots(src, roots[..|roots| - 1]) && Covered(src, roots[..|roots| - 1]) !! Reached(src, roots[|roots| - 1]))
  }

  /**
   * `g` and `m` are what copying the sub-graphs of `roots` into `dest` gives: a
   * fresh copy of every node of those sub-graphs, holding its original's data, and
   * no node of `dest` other than its root changed.
   */
  ghost predicate RootsCopied(src: Graph, roots: seq<Handle>, dest: Graph, g: Graph, m: map<Handle, Handle>)
  {
    g.root == dest.root
    && m.Keys == Covered(src, roots)
    && FreshCopies(dest.pool, g.pool, m)
    && CoversRoots(src, roots, m)
    && (roots != [] ==> IsLive(dest.pool, dest.root))
    && (forall h :: IsLive(dest.pool, h) ==> IsLive(g.pool, h))
    && (forall h :: IsLive(dest.pool, h) && h != dest.root ==> Get(g.pool, h) == Get(dest.pool, h))
    && (forall d :: d in m ==> IsLive(src.pool, d) && RawCopy(Get(g.pool, m[d])) == RawCopy(Get(src.pool, d)))
  }

  /**
   * The copies in `g` reproduce the hierarchy of the sub-graphs of `roots`, every
   * root's copy names `dest`'s root as its parent, and the root copies are
   * appended to the children of `dest`'s root in the order of `roots`.
   */
  ghost predicate RootsShaped(src: Graph, roots: seq<Handle>, dest: Graph, g: Graph, m: map<Handle, Handle>)
  {
    HierarchyCopied(src, g, m, m.Keys, Listed(roots))
    && (forall x :: x in roots ==> x in m && IsLive(g.pool, m[x]) && Get(g.pool, m[x]).parent == dest.root)
    && (roots != [] ==>
          IsLive(dest.pool, dest.root) && IsLive(g.pool, dest.root)
          && Get(g.pool, dest.root).children == Get(dest.pool, dest.root).children + Mapped(roots, m))
  }

  /**
   * Copies the sub-graph of every root in turn, merging the mappings (later entries
   * win): only the destination's root changes among its nodes, and every copy holds
   * its original's data. When the sub-graphs are disjoint, the hierarchy is copied,
   * every root's copy hangs under the destination's root, and the copies are
   * appended to the destination root's children in the order of `roots`.
   */
  function CopyRoots(src: Graph, roots: seq<Handle>, dest: Graph): (r: Option<(Graph, map<Handle, Handle>)>)
    ensures r.Some? ==> RootsCopied(src, roots, dest, r.value.0, r.value.1)
    ensures r.Some? && DisjointRoots(src, roots) ==> RootsShaped(src, roots, dest, r.value.0, r.value.1)
    decreases |roots|
  {
    if roots == [] then Some((dest, map[]))
    else
      var init := roots[..|roots| - 1];
      var last := roots[|roots| - 1];
      assert roots == init + [last];
      match CopyRoots(src, init, dest)
      case None => None
      case Some((g1, m1)) =>
        match CopyNode(src, last, g1)
        case None => None
        case Some((g2, m2)) =>
          CopyRootsGrow(src, init, last, dest, g1, m1, g2, m2);
          Some((g2, m1 + m2))
  }

  /** Copying one more root extends what the earlier copies satisfy. */
  lemma CopyRootsGrow(src: Graph, init: seq<Handle>, last: Handle, dest: Graph, g1: Graph, m1: map<Handle, Handle>, g2: Graph, m2: map<Handle, Handle>)
    requires init == [] ==> g1 == dest && m1 == map[]
    requires RootsCopied(src, init, dest, g1, m1)
    requires DisjointRoots(src, init) ==> RootsShaped(src, init, dest, g1, m1)
    requires NodeCopied(src, last, g1, g2, m2)
    ensures RootsCopied(src, init + [last], dest, g2, m1 + m2)
    ensures DisjointRoots(src, init + [last]) ==> RootsShaped(src, init + [last], dest, g2, m1 + m2)
  {
    CopyRootsKeys(src, init, last, m1, m2);
    CopyRootsStep(src, init, dest, g1, m1, g2, m2);
    CopyRootsShapeStep(src, init, last, dest, g1, m1, g2, m2);
    CopyRootsTopStep(src, init, last, dest, g1, m1, g2, m2);
    CopyRootsOrderStep(src, init, last, dest, g1, m1, g2, m2);
  }

  /** Copying one more root covers that root's sub-graph too. */
  lemma CopyRootsKeys(src: Graph, init: seq<Handle>, last: Handle, m1: map<Handle, Handle>, m2: map<Handle, Handle>)
    requires m1.Keys == Covered(src, init) && CoversRoots(src, init, m1)
    requires Traverse(src, last).Some? && m2.Keys == Reached(src, last)
    ensures (m1 + m2).Keys == Covered(src, init + [last]) && CoversRoots(src, init + [last], m1 + m2)
  {
    assert (init + [last])[..|init + [last]| - 1] == init;
    forall x | x in init + [last] ensures Traverse(src, x).Some? && forall d :: d in Traverse(src, x).value ==> d in m1 + m2 {
      if x != last {
        assert x in init;
      }
    }
  }

  /** Copying one more root keeps the copies fresh and their data, and leaves the destination's other nodes alone. */
  lemma CopyRootsStep(src: Graph, init: seq<Handle>, dest: Graph, g1: Graph, m1: map<Handle, Handle>, g2: Graph, m2: map<Handle, Handle>)
    requires init == [] ==> g1 == dest
    requires g1.root == dest.root
    requires FreshCopies(dest.pool, g1.pool, m1)
    requires init != [] ==> IsLive(dest.pool, dest.root)
    requires forall h :: IsLive(dest.pool, h) ==> IsLive(g1.pool, h)
    requires forall h :: IsLive(dest.pool, h) && h != dest.root ==> Get(g1.pool, h) == Get(dest.pool, h)
    requires forall d :: d in m1 ==> IsLive(src.pool, d) && RawCopy(Get(g1.pool, m1[d])) == RawCopy(Get(src.pool, d))
    requires FreshCopies(g1.pool, g2.pool, m2) && IsLive(g1.pool, g1.root)
    requires forall d :: d in m2 ==> IsLive(src.pool, d) && RawCopy(Get(g2.pool, m2[d])) == RawCopy(Get(src.pool, d))
    requires forall h :: IsLive(g1.pool, h) ==> IsLive(g2.pool, h)
    requires forall h :: IsLive(g1.pool, h) && h != g1.root ==> Get(g2.pool, h) == Get(g1.pool, h)
    ensures FreshCopies(dest.pool, g2.pool, m1 + m2)
    ensures IsLive(dest.pool, dest.root)
    ensures forall h :: IsLive(dest.pool, h) ==> IsLive(g2.pool, h)
    ensures forall h :: IsLive(dest.pool, h) && h != dest.root ==> Get(g2.pool, h) == Get(dest.pool, h)
    ensures forall d :: d in m1 + m2 ==> IsLive(src.pool, d) && RawCopy(Get(g2.pool, (m1 + m2)[d])) == RawCopy(Get(src.pool, d))
  {
    MergeFresh(dest.pool, g1.pool, g2.pool, m1, m2);
    forall d | d in m1 && d !in m2 ensures Get(g2.pool, m1[d]) == Get(g1.pool, m1[d]) {
      assert !IsLive(dest.pool, m1[d]);
    }
  }

  /** Copying one more root whose sub-graph is disjoint from the earlier ones keeps the copied hierarchy. */
  lemma CopyRootsShapeStep(src: Graph, init: seq<Handle>, last: Handle, dest: Graph, g1: Graph, m1: map<Handle, Handle>, g2: Graph, m2: map<Handle, Handle>)
    requires g1.root == dest.root && m1.Keys == Covered(src, init) && m2.Keys == Reached(src, last)
    requires FreshCopies(dest.pool, g1.pool, m1)
    requires init != [] ==> IsLive(dest.pool, dest.root)
    requires forall h :: IsLive(g1.pool, h) ==> IsLive(g2.pool, h)
    requires forall h :: IsLive(g1.pool, h) && h != g1.root ==> Get(g2.pool, h) == Get(g1.pool, h)
    requires HierarchyCopied(src, g2, m2, m2.Keys, {last})
    requires DisjointRoots(src, init) ==> HierarchyCopied(src, g1, m1, m1.Keys, Listed(init))
    ensures DisjointRoots(src, init + [last]) ==> HierarchyCopied(src, g2, m1 + m2, (m1 + m2).Keys, Listed(init + [last]))
  {
    var m := m1 + m2;
    if !DisjointRoots(src, init + [last]) {
      return;
    }
    assert (init + [last])[..|init + [last]| - 1] == init;
    assert m1.Keys !! m2.Keys;
    // Copies made earlier are neither the destination's root nor touched by the new copy.
    forall d | d in m1 ensures d !in m2 && IsLive(g2.pool, m1[d]) && Get(g2.pool, m1[d]) == Get(g1.pool, m1[d]) {
      assert !IsLive(dest.pool, m1[d]);
    }
    var t1 := Listed(init);
    var t := Listed(init + [last]);
    forall d | d in m ensures CopiedAt(src, g2, m, d, t) {
      if d in m2 {
        assert CopiedAt(src, g2, m2, d, {last});
        CopiedAtTransfer(src, g2, m2, d, {last}, g2, m, t);
      } else {
        assert CopiedAt(src, g1, m1, d, t1);
        CopiedAtTransfer(src, g1, m1, d, t1, g2, m, t);
      }
    }
  }

  /** Copying one more root whose sub-graph is disjoint from the earlier ones hangs its copy under the destination's root and keeps the earlier root copies there. */
  lemma CopyRootsTopStep(src: Graph, init: seq<Handle>, last: Handle, dest: Graph, g1: Graph, m1: map<Handle, Handle>, g2: Graph, m2: map<Handle, Handle>)
    requires g1.root == dest.root && m1.Keys == Covered(src, init) && m2.Keys == Reached(src, last)
    requires FreshCopies(dest.pool, g1.pool, m1)
    requires forall h :: IsLive(g1.pool, h) ==> IsLive(g2.pool, h)
    requires forall h :: IsLive(g1.pool, h) && h != g1.root ==> Get(g2.pool, h) == Get(g1.pool, h)
    requires init != [] ==> IsLive(dest.pool, dest.root)
    requires last in m2 && IsLive(g2.pool, m2[last]) && Get(g2.pool, m2[last]).parent == g1.root
    requires DisjointRoots(src, init) ==> forall x :: x in init ==> x in m1 && Get(g1.pool, m1[x]).parent == dest.root
    ensures DisjointRoots(src, init + [last]) ==>
      forall x :: x in init + [last] ==> x in m1 + m2 && Get(g2.pool, (m1 + m2)[x]).parent == dest.root
  {
    var m := m1 + m2;
    if DisjointRoots(src, init + [last]) {
      assert (init + [last])[..|init + [last]| - 1] == init;
      forall x | x in init + [last] ensures x in m && Get(g2.pool, m[x]).parent == dest.root {
        if x != last {
          assert x in init && x in Covered(src, init);
          assert !IsLive(dest.pool, m1[x]);
        }
      }
    }
  }

  /** Copying one more root whose sub-graph is disjoint from the earlier ones appends its copy to the destination root's children. */
  lemma CopyRootsOrderStep(src: Graph, init: seq<Handle>, last: Handle, dest: Graph, g1: Graph, m1: map<Handle, Handle>, g2: Graph, m2: map<Handle, Handle>)
    requires init == [] ==> g1 == dest
    requires g1.root == dest.root && m1.Keys == Covered(src, init) && m2.Keys == Reached(src, last)
    requires init != [] ==> IsLive(dest.pool, dest.root)
    requires IsLive(g1.pool, g1.root) && IsLive(g2.pool, g1.root) && last in m2
    requires Get(g2.pool, g1.root).children == Get(g1.pool, g1.root).children + [m2[last]]
    requires DisjointRoots(src, init) ==>
      (forall x :: x in init ==> x in m1)
      && (init != [] ==> Get(g1.pool, dest.root).children == Get(dest.pool, dest.root).children + Mapped(init, m1))
    ensures DisjointRoots(src, init + [last]) ==>
      (forall x :: x in init + [last] ==> x in m1 + m2)
      && IsLive(dest.pool, dest.root)
      && Get(g2.pool, dest.root).children == Get(dest.pool, dest.root).children + Mapped(init + [last], m1 + m2)
  {
    var m := m1 + m2;
    if DisjointRoots(src, init + [last]) {
      assert (init + [last])[..|init + [last]| - 1] == init;
      var kids := Get(dest.pool, dest.root).children;
      MappedSnoc(init, last, m);
      if init != [] {
        forall x | x in init ensures x !in m2 {
          assert x in Covered(src, init);
        }
        MappedAgree(init, m1, m);
      }
      AppendAssoc(kids, Mapped(init, m), [m[last]]);
    }
  }

  /** Concatenation is associative. */
  lemma AppendAssoc(a: seq<Handle>, b: seq<Handle>, c: seq<Handle>)
    ensures (a + b) + c == a + (b + c)
  {
  }

  /** Two maps that agree on `xs` map it alike. */
  lemma MappedAgree(xs: seq<Handle>, a: map<Handle, Handle>, b: map<Handle, Handle>)
    requires forall x :: x in xs ==> x in a && x in b && a[x] == b[x]
    ensures Mapped(xs, a) == Mapped(xs, b)
  {
    assert forall i :: 0 <= i < |xs| ==> xs[i] in xs;
  }

  /** Mapping a list with one more element appends that element's image. */
  lemma MappedSnoc(xs: seq<Handle>, x: Handle, m: map<Handle, Handle>)
    requires forall y :: y in xs + [x] ==> y in m
    ensures Mapped(xs + [x], m) == Mapped(xs, m) + [m[x]]
  {
    assert forall i :: 0 <= i < |xs| ==> (xs + [x])[i] == xs[i];
  }


  /** Copies made by two successive copy operations, merged, are still fresh and unshared. */
  lemma MergeFresh(p0: Pool<Node>, p1: Pool<Node>, p2: Pool<Node>, m1: map<Handle, Handle>, m2: map<Handle, Handle>)
    requires FreshCopies(p0, p1, m1) && FreshCopies(p1, p2, m2)
    requires forall h :: IsLive(p0, h) ==> IsLive(p1, h)
    requires forall h :: IsLive(p1, h) ==> IsLive(p2, h)
    ensures FreshCopies(p0, p2, m1 + m2)
    ensures forall h :: IsLive(p0, h) ==> IsLive(p2, h)
  {
    var m := m1 + m2;
    forall d, e | d in m && e in m && d != e ensures m[d] != m[e] {
      if d in m2 && e !in m2 {
        assert !IsLive(p1, m[d]) && IsLive(p1, m[e]);
      } else if e in m2 && d !in m2 {
        assert !IsLive(p1, m[e]) && IsLive(p1, m[d]);
      }
    }
  }

  /** What `deep_clone_nodes` returns: the copies of the roots and the physics entities it created. */
  datatype DeepCloneResult = DeepCloneResult(
    rootNodes: seq<Handle>,
    colliders: seq<Handle>,
    bodies: seq<Handle>,
    joints: seq<Handle>,
    binder: seq<(Handle, Handle)>)

  const EmptyResult := DeepCloneResult([], [], [], [], [])

  /** The nodes of binder entries (node, body). */
  function EntryKeys(entries: seq<(Handle, Handle)>): (r: set<Handle>)
    ensures forall i :: 0 <= i < |entries| ==> entries[i].0 in r
    ensures forall n :: n in r ==> exists i :: 0 <= i < |entries| && entries[i].0 == n
  {
    set e | e in entries :: e.0
  }

  /** No later entry is for the same node: entry `i` is the one a map built in order keeps. */
  predicate LatestEntry(entries: seq<(Handle, Handle)>, i: int)
  {
    0 <= i < |entries| && forall j :: i < j < |entries| ==> entries[j].0 != entries[i].0
  }

  /**
   * The physics copied so far is consistent with the result: reported bodies and
   * colliders are live, every copied collider is attached to a copied body and is in
   * that body's collider list, every binder entry of the result names a copied body
   * and the latest entry for a node is also in the destination binder, and no joint
   * is copied.
   */
  ghost predicate CloneConsistent(ph: Physics, res: DeepCloneResult)
  {
    (forall b :: b in res.bodies ==> IsLive(ph.bodies, b))
    && CollidersAttached(ph.bodies, ph.colliders, res.bodies, res.colliders)
    && BinderBound(ph.binder, res.bodies, res.binder)
    && res.joints == []
  }

  /** Each copied collider is live, attached to a copied body, and listed by that body. */
  ghost predicate CollidersAttached(bodies: Pool<RigidBody>, colliders: Pool<Collider>, bodyCopies: seq<Handle>, colliderCopies: seq<Handle>)
  {
    forall c :: c in colliderCopies ==>
      IsLive(colliders, c) && Get(colliders, c).parent in bodyCopies
      && IsLive(bodies, Get(colliders, c).parent)
      && c in Get(bodies, Get(colliders, c).parent).colliders
  }

  /** Each entry binds to a copied body, and the latest entry for a node is in the binder. */
  ghost predicate BinderBound(binder: Binder, bodyCopies: seq<Handle>, entries: seq<(Handle, Handle)>)
  {
    (forall i :: 0 <= i < |entries| ==> entries[i].1 in bodyCopies)
    && (forall i :: LatestEntry(entries, i) ==> ValueOf(binder, entries[i].0) == Some(entries[i].1))
  }

  /** Copies one collider of the source body, attached to the copied body `bodyCopy`. */
  function CloneCollider(ph: Physics, res: DeepCloneResult, src: Physics, bodyCopy: Handle, c: Handle): (r: Option<(Physics, DeepCloneResult)>)
    ensures r.Some? ==> r.value.1 == res.(colliders := r.value.1.colliders) && |r.value.1.colliders| == |res.colliders| + 1
    ensures r.Some? ==> ph.binder == r.value.0.binder
    ensures r.Some? && CloneConsistent(ph, res) && bodyCopy in res.bodies ==> CloneConsistent(r.value.0, r.value.1)
  {
    if !IsLive(src.colliders, c) || !IsLive(ph.bodies, bodyCopy) then None
    else
      var (cs, ch) := Spawn(ph.colliders, Get(src.colliders, c).(parent := bodyCopy));
      var body := Get(ph.bodies, bodyCopy);
      var ph1 := ph.(colliders := cs, bodies := Set(ph.bodies, bodyCopy, body.(colliders := body.colliders + [ch])));
      var res1 := res.(colliders := res.colliders + [ch]);
      assert CloneConsistent(ph, res) && bodyCopy in res.bodies ==> CloneConsistent(ph1, res1) by {
        if CloneConsistent(ph, res) && bodyCopy in res.bodies {
          forall x | x in res1.colliders
            ensures IsLive(ph1.colliders, x) && Get(ph1.colliders, x).parent in res1.bodies
            ensures x in Get(ph1.bodies, Get(ph1.colliders, x).parent).colliders
          {
            if x != ch {
              assert x in res.colliders;
            }
          }
        }
      }
      Some((ph1, res1))
  }

  /** Copies the colliders `cs` in order (the inner loop of `deep_clone_nodes`). */
  function CloneColliders(ph: Physics, res: DeepCloneResult, src: Physics, bodyCopy: Handle, cs: seq<Handle>): (r: Option<(Physics, DeepCloneResult)>)
    ensures r.Some? ==> r.value.1 == res.(colliders := r.value.1.colliders) && |r.value.1.colliders| == |res.colliders| + |cs|
    ensures r.Some? ==> ph.binder == r.value.0.binder
    ensures r.Some? && CloneConsistent(ph, res) && bodyCopy in res.bodies ==> CloneConsistent(r.value.0, r.value.1)
    decreases |cs|
  {
    if cs == [] then Some((ph, res))
    else
      match CloneColliders(ph, res, src, bodyCopy, cs[..|cs| - 1])
      case None => None
      case Some((ph1, res1)) => CloneCollider(ph1, res1, src, bodyCopy, cs[|cs| - 1])
  }

  /**
   * One step of the descendant loop: a node bound to a body gets a copy of the body
   * (without colliders), copies of the body's colliders, and a binder entry from the
   * node's copy to the body's copy, in the result and in the destination binder.
   */
  function CloneDescendant(ph: Physics, res: DeepCloneResult, src: Physics, mapping: map<Handle, Handle>, d: Handle): (r: Option<(Physics, DeepCloneResult)>)
    ensures d !in src.binder.forward ==> r == Some((ph, res))
    ensures r.Some? && d in src.binder.forward ==> d in mapping && mapping[d] in EntryKeys(r.value.1.binder)
    ensures r.Some? ==> EntryKeys(res.binder) <= EntryKeys(r.value.1.binder) && r.value.1.rootNodes == res.rootNodes
    ensures r.Some? ==> forall n :: n in EntryKeys(r.value.1.binder) ==> n in EntryKeys(res.binder) || n in mapping.Values
    ensures r.Some? && CloneConsistent(ph, res) ==> CloneConsistent(r.value.0, r.value.1)
  {
    match ValueOf(src.binder, d)
    case None => Some((ph, res))
    case Some(body) =>
      if !IsLive(src.bodies, body) then None
      else
        var original := Get(src.bodies, body);
        var (bs, bh) := Spawn(ph.bodies, original.(colliders := []));
        var ph1 := ph.(bodies := bs);
        var res1 := res.(bodies := res.bodies + [bh]);
        assert CloneConsistent(ph, res) ==> CloneConsistent(ph1, res1) by {
          if CloneConsistent(ph, res) {
            forall x | x in res1.colliders
              ensures Get(ph1.colliders, x).parent != bh
              ensures x in Get(ph1.bodies, Get(ph1.colliders, x).parent).colliders
            {
              assert Get(ph.colliders, x).parent in res.bodies;
            }
          }
        }
        match CloneColliders(ph1, res1, src, bh, original.colliders)
        case None => None
        case Some((ph2, res2)) =>
          if d !in mapping then None
          else
            var node := mapping[d];
            BindKeepsConsistent(ph2, res2, node, bh);
            Some((ph2.(binder := BinderInsert(ph2.binder, node, bh)), res2.(binder := res2.binder + [(node, bh)])))
  }

  /** Binding a copied node to a copied body keeps the clone consistent. */
  lemma BindKeepsConsistent(ph: Physics, res: DeepCloneResult, node: Handle, body: Handle)
    requires res.bodies != [] && body == res.bodies[|res.bodies| - 1]
    ensures var ph1 := ph.(binder := BinderInsert(ph.binder, node, body));
      var res1 := res.(binder := res.binder + [(node, body)]);
      CloneConsistent(ph, res) ==> CloneConsistent(ph1, res1)
  {
    var b1 := BinderInsert(ph.binder, node, body);
    var es := res.binder + [(node, body)];
    if BinderBound(ph.binder, res.bodies, res.binder) {
      forall i | 0 <= i < |es| ensures es[i].1 in res.bodies {
        if i < |res.binder| {
          assert es[i] == res.binder[i];
        }
      }
      forall i | LatestEntry(es, i) ensures ValueOf(b1, es[i].0) == Some(es[i].1) {
        if i < |res.binder| {
          assert es[i] == res.binder[i];
          assert es[|res.binder|].0 != es[i].0;
          forall j | i < j < |res.binder| ensures res.binder[j].0 != res.binder[i].0 {
            assert es[j] == res.binder[j];
          }
        }
      }
      assert BinderBound(b1, res.bodies, es);
    }
  }

  /** The descendant loop over `ds`, in order. */
  function CloneDescendants(ph: Physics, res: DeepCloneResult, src: Physics, mapping: map<Handle, Handle>, ds: seq<Handle>): (r: Option<(Physics, DeepCloneResult)>)
    ensures r.Some? ==> forall d :: d in ds && d in src.binder.forward ==> d in mapping && mapping[d] in EntryKeys(r.value.1.binder)
    ensures r.Some? ==> EntryKeys(res.binder) <= EntryKeys(r.value.1.binder) && r.value.1.rootNodes == res.rootNodes
    ensures r.Some? ==> forall n :: n in EntryKeys(r.value.1.binder) ==> n in EntryKeys(res.binder) || n in mapping.Values
    ensures r.Some? && CloneConsistent(ph, res) ==> CloneConsistent(r.value.0, r.value.1)
    decreases |ds|
  {
    if ds == [] then Some((ph, res))
    else
      var init := ds[..|ds| - 1];
      assert ds == init + [ds[|ds| - 1]];
      match CloneDescendants(ph, res, src, mapping, init)
      case None => None
      case Some((ph1, res1)) => CloneDescendant(ph1, res1, src, mapping, ds[|ds| - 1])
  }

  /** The outer physics loop: every descendant of every root, root by root. */
  function CloneRootsPhysics(ph: Physics, res: DeepCloneResult, srcGraph: Graph, src: Physics, mapping: map<Handle, Handle>, roots: seq<Handle>): (r: Option<(Physics, DeepCloneResult)>)
    ensures r.Some? ==> forall x :: x in roots ==>
      (Traverse(srcGraph, x).Some?
       && forall d :: d in Traverse(srcGraph, x).value && d in src.binder.forward ==> d in mapping && mapping[d] in EntryKeys(r.value.1.binder))
    ensures r.Some? ==> EntryKeys(res.binder) <= EntryKeys(r.value.1.binder) && r.value.1.rootNodes == res.rootNodes
    ensures r.Some? ==> forall n :: n in EntryKeys(r.value.1.binder) ==> n in EntryKeys(res.binder) || n in mapping.Values
    ensures r.Some? && CloneConsistent(ph, res) ==> CloneConsistent(r.value.0, r.value.1)
    decreases |roots|
  {
    if roots == [] then Some((ph, res))
    else
      var init := roots[..|roots| - 1];
      var last := roots[|roots| - 1];
      assert roots == init + [last];
      match CloneRootsPhysics(ph, res, srcGraph, src, mapping, init)
      case None => None
      case Some((ph1, res1)) =>
        match Traverse(srcGraph, last)
        case None => None
        case Some(ds) => CloneDescendants(ph1, res1, src, mapping, ds)
  }

  /**
   * `copy` in `ph` is a clone of the source body `b`: the same body except for its
   * collider list, which holds, in order, a fresh clone of each of `b`'s colliders
   * attached to `copy`.
   */
  ghost predicate BodyCloned(ph: Physics, src: Physics, b: Handle, copy: Handle)
  {
    IsLive(src.bodies, b) && IsLive(ph.bodies, copy)
    && var original := Get(src.bodies, b);
    var clone := Get(ph.bodies, copy);
    clone == original.(colliders := clone.colliders)
    && |clone.colliders| == |original.colliders|
    && forall i :: 0 <= i < |original.colliders| ==>
         IsLive(src.colliders, original.colliders[i]) && IsLive(ph.colliders, clone.colliders[i])
         && Get(ph.colliders, clone.colliders[i]) == Get(src.colliders, original.colliders[i]).(parent := copy)
  }

  /** When `d` is bound to a body in the source, the destination binds `d`'s copy to a clone of that body. */
  ghost predicate BoundCloned(ph: Physics, src: Physics, mapping: map<Handle, Handle>, d: Handle)
  {
    d in src.binder.forward ==>
      d in mapping && mapping[d] in ph.binder.forward
      && BodyCloned(ph, src, src.binder.forward[d], ph.binder.forward[mapping[d]])
  }

  /** The bodies and colliders of `ph` are all still in `ph1`, unchanged. */
  ghost predicate PhysicsKept(ph: Physics, ph1: Physics)
  {
    (forall b :: IsLive(ph.bodies, b) ==> IsLive(ph1.bodies, b) && Get(ph1.bodies, b) == Get(ph.bodies, b))
    && (forall c :: IsLive(ph.colliders, c) ==> IsLive(ph1.colliders, c) && Get(ph1.colliders, c) == Get(ph.colliders, c))
  }

  /** A clone stays a clone while the bodies and colliders it involves are kept. */
  lemma BodyClonedKept(ph: Physics, ph1: Physics, src: Physics, b: Handle, copy: Handle)
    requires BodyCloned(ph, src, b, copy) && PhysicsKept(ph, ph1)
    ensures BodyCloned(ph1, src, b, copy)
  {
    var clone := Get(ph.bodies, copy);
    forall i | 0 <= i < |clone.colliders| ensures IsLive(ph1.colliders, clone.colliders[i]) {
      assert IsLive(ph.colliders, clone.colliders[i]);
    }
  }

  /**
   * `added` are clones of the colliders `cs`, in order: each is a collider of `ph1`
   * that was not live in `ph`, holding its original attached to `bodyCopy`.
   */
  ghost predicate CollidersCloned(ph: Physics, ph1: Physics, src: Physics, bodyCopy: Handle, cs: seq<Handle>, added: seq<Handle>)
  {
    |added| == |cs|
    && forall i :: 0 <= i < |cs| ==>
         IsLive(src.colliders, cs[i]) && IsLive(ph1.colliders, added[i]) && !IsLive(ph.colliders, added[i])
         && Get(ph1.colliders, added[i]) == Get(src.colliders, cs[i]).(parent := bodyCopy)
  }

  /** Every collider of `ph` is still in `ph1`, unchanged. */
  ghost predicate CollidersKept(ph: Physics, ph1: Physics)
  {
    forall c :: IsLive(ph.colliders, c) ==> IsLive(ph1.colliders, c) && Get(ph1.colliders, c) == Get(ph.colliders, c)
  }

  /**
   * The colliders loop clones the colliders `cs` in order: the clones are the
   * entries it adds to the result, each is a fresh collider holding its original
   * attached to `bodyCopy`, and no earlier collider changes.
   */
  lemma {:induction false} CloneCollidersValues(ph: Physics, res: DeepCloneResult, src: Physics, bodyCopy: Handle, cs: seq<Handle>)
    requires CloneColliders(ph, res, src, bodyCopy, cs).Some?
    ensures var (ph1, res1) := CloneColliders(ph, res, src, bodyCopy, cs).value;
      var added := res1.colliders[|res.colliders|..];
      res1.colliders == res.colliders + added
      && CollidersCloned(ph, ph1, src, bodyCopy, cs, added)
      && CollidersKept(ph, ph1)
    decreases |cs|
  {
    if cs != [] {
      var init := cs[..|cs| - 1];
      var c := cs[|cs| - 1];
      CloneCollidersValues(ph, res, src, bodyCopy, init);
      var (ph1, res1) := CloneColliders(ph, res, src, bodyCopy, init).value;
      CloneColliderValue(ph1, res1, src, bodyCopy, c);
      var (ph2, res2) := CloneCollider(ph1, res1, src, bodyCopy, c).value;
      CollidersClonedSnoc(ph, ph1, ph2, src, bodyCopy, cs, res.colliders, res1.colliders, res2.colliders);
    }
  }

  /** Cloning one collider adds one fresh collider holding the original attached to `bodyCopy`, and keeps the others. */
  lemma CloneColliderValue(ph: Physics, res: DeepCloneResult, src: Physics, bodyCopy: Handle, c: Handle)
    requires CloneCollider(ph, res, src, bodyCopy, c).Some?
    ensures var (ph1, res1) := CloneCollider(ph, res, src, bodyCopy, c).value;
      var n := res1.colliders[|res.colliders|];
      res1.colliders == res.colliders + [n]
      && IsLive(src.colliders, c) && IsLive(ph1.colliders, n) && !IsLive(ph.colliders, n)
      && Get(ph1.colliders, n) == Get(src.colliders, c).(parent := bodyCopy)
      && CollidersKept(ph, ph1)
  {
  }

  /**
   * One more clone, made after the others, extends the list of clones: `before`,
   * `mid` and `after` are the result's colliders before the loop, before the last
   * step and after it.
   */
  lemma CollidersClonedSnoc(ph: Physics, ph1: Physics, ph2: Physics, src: Physics, bodyCopy: Handle, cs: seq<Handle>,
                            before: seq<Handle>, mid: seq<Handle>, after: seq<Handle>)
    requires cs != [] && |before| <= |mid| && mid == before + mid[|before|..]
    requires CollidersCloned(ph, ph1, src, bodyCopy, cs[..|cs| - 1], mid[|before|..])
    requires CollidersKept(ph, ph1) && CollidersKept(ph1, ph2)
    requires |after| == |mid| + 1 && after == mid + [after[|mid|]]
    requires var n := after[|mid|];
      IsLive(src.colliders, cs[|cs| - 1]) && IsLive(ph2.colliders, n) && !IsLive(ph1.colliders, n)
      && Get(ph2.colliders, n) == Get(src.colliders, cs[|cs| - 1]).(parent := bodyCopy)
    ensures after == before + after[|before|..]
    ensures CollidersCloned(ph, ph2, src, bodyCopy, cs, after[|before|..]) && CollidersKept(ph, ph2)
  {
    var added := mid[|before|..];
    assert after[|before|..] == added + [after[|mid|]];
    forall i | 0 <= i < |cs| - 1 ensures IsLive(ph2.colliders, added[i]) && Get(ph2.colliders, added[i]) == Get(ph1.colliders, added[i]) {
    }
  }

  /**
   * The colliders loop appends the clones it adds, in order, to `bodyCopy`'s
   * collider list, and changes no other body.
   */
  lemma {:induction false} CloneCollidersBody(ph: Physics, res: DeepCloneResult, src: Physics, bodyCopy: Handle, cs: seq<Handle>)
    requires CloneColliders(ph, res, src, bodyCopy, cs).Some?
    ensures var (ph1, res1) := CloneColliders(ph, res, src, bodyCopy, cs).value;
      var added := res1.colliders[|res.colliders|..];
      (cs != [] ==> IsLive(ph.bodies, bodyCopy))
      && (IsLive(ph.bodies, bodyCopy) ==>
            IsLive(ph1.bodies, bodyCopy)
            && Get(ph1.bodies, bodyCopy) == Get(ph.bodies, bodyCopy).(colliders := Get(ph.bodies, bodyCopy).colliders + added))
      && SameLive(ph.bodies, ph1.bodies)
      && (forall b :: IsLive(ph.bodies, b) && b != bodyCopy ==> Get(ph1.bodies, b) == Get(ph.bodies, b))
    decreases |cs|
  {
    if cs != [] {
      var init := cs[..|cs| - 1];
      CloneCollidersBody(ph, res, src, bodyCopy, init);
      var (ph1, res1) := CloneColliders(ph, res, src, bodyCopy, init).value;
      var (ph2, res2) := CloneCollider(ph1, res1, src, bodyCopy, cs[|cs| - 1]).value;
      var added1 := res1.colliders[|res.colliders|..];
      var ch := res2.colliders[|res1.colliders|];
      assert res2.colliders[|res.colliders|..] == added1 + [ch];
      if IsLive(ph.bodies, bodyCopy) {
        AppendAssoc(Get(ph.bodies, bodyCopy).colliders, added1, [ch]);
      }
    }
  }

  /**
   * One step of the descendant loop keeps every body and collider; when `d` is
   * bound, it rebinds only `d`'s copy, to a clone of `d`'s body.
   */
  lemma CloneDescendantValues(ph: Physics, res: DeepCloneResult, src: Physics, mapping: map<Handle, Handle>, d: Handle)
    requires CloneDescendant(ph, res, src, mapping, d).Some?
    ensures var (ph1, _) := CloneDescendant(ph, res, src, mapping, d).value;
      PhysicsKept(ph, ph1)
      && BoundCloned(ph1, src, mapping, d)
      && (d in src.binder.forward ==> d in mapping && forall n :: n != mapping[d] ==> ValueOf(ph1.binder, n) == ValueOf(ph.binder, n))
      && (d !in src.binder.forward ==> ph1 == ph)
  {
    if d in src.binder.forward {
      var body := src.binder.forward[d];
      var original := Get(src.bodies, body);
      var (bs, bh) := Spawn(ph.bodies, original.(colliders := []));
      var ph1 := ph.(bodies := bs);
      var res1 := res.(bodies := res.bodies + [bh]);
      CloneCollidersValues(ph1, res1, src, bh, original.colliders);
      CloneCollidersBody(ph1, res1, src, bh, original.colliders);
      var (ph2, res2) := CloneColliders(ph1, res1, src, bh, original.colliders).value;
      var ph3 := ph2.(binder := BinderInsert(ph2.binder, mapping[d], bh));
      assert CloneDescendant(ph, res, src, mapping, d).value.0 == ph3;
      var added := res2.colliders[|res1.colliders|..];
      assert Get(ph2.bodies, bh) == original.(colliders := added);
      BodyClonedOf(ph1, ph2, ph3, src, body, bh, added);
      forall b | IsLive(ph.bodies, b) ensures IsLive(ph3.bodies, b) && Get(ph3.bodies, b) == Get(ph.bodies, b) {
        assert b != bh;
      }
    }
  }

  /** A body copy whose colliders are clones of the original's, in order, is a clone of the original. */
  lemma BodyClonedOf(ph: Physics, ph1: Physics, ph2: Physics, src: Physics, b: Handle, copy: Handle, added: seq<Handle>)
    requires IsLive(src.bodies, b) && IsLive(ph1.bodies, copy)
    requires Get(ph1.bodies, copy) == Get(src.bodies, b).(colliders := added)
    requires CollidersCloned(ph, ph1, src, copy, Get(src.bodies, b).colliders, added)
    requires ph2.bodies == ph1.bodies && ph2.colliders == ph1.colliders
    ensures BodyCloned(ph2, src, b, copy)
  {
  }

  /**
   * The descendant loop over `ds` binds the copy of every bound node of `ds` to a
   * clone of its body, keeps every clone made before, and keeps every body and
   * collider.
   */
  lemma {:induction false} CloneDescendantsValues(ph: Physics, res: DeepCloneResult, src: Physics, mapping: map<Handle, Handle>, ds: seq<Handle>)
    requires CloneDescendants(ph, res, src, mapping, ds).Some? && Unshared(mapping)
    ensures var (ph1, _) := CloneDescendants(ph, res, src, mapping, ds).value;
      PhysicsKept(ph, ph1)
      && (forall d :: d in ds ==> BoundCloned(ph1, src, mapping, d))
      && (forall x :: BoundCloned(ph, src, mapping, x) ==> BoundCloned(ph1, src, mapping, x))
    decreases |ds|
  {
    if ds != [] {
      var init := ds[..|ds| - 1];
      var last := ds[|ds| - 1];
      assert ds == init + [last];
      CloneDescendantsValues(ph, res, src, mapping, init);
      var (ph1, res1) := CloneDescendants(ph, res, src, mapping, init).value;
      CloneDescendantValues(ph1, res1, src, mapping, last);
      var (ph2, _) := CloneDescendant(ph1, res1, src, mapping, last).value;
      forall x | BoundCloned(ph1, src, mapping, x) ensures BoundCloned(ph2, src, mapping, x) {
        BoundClonedStep(ph1, ph2, src, mapping, x, last);
      }
      forall b | IsLive(ph.bodies, b) ensures IsLive(ph2.bodies, b) && Get(ph2.bodies, b) == Get(ph.bodies, b) {
        assert IsLive(ph1.bodies, b);
      }
      forall c | IsLive(ph.colliders, c) ensures IsLive(ph2.colliders, c) && Get(ph2.colliders, c) == Get(ph.colliders, c) {
        assert IsLive(ph1.colliders, c);
      }
    }
  }

  /** A clone bound to the copy of `x` survives a step for another node `e`, since copies are not shared. */
  lemma BoundClonedStep(ph: Physics, ph1: Physics, src: Physics, mapping: map<Handle, Handle>, x: Handle, e: Handle)
    requires Unshared(mapping) && BoundCloned(ph, src, mapping, x) && BoundCloned(ph1, src, mapping, e)
    requires PhysicsKept(ph, ph1)
    requires e in src.binder.forward ==> e in mapping && forall n :: n != mapping[e] ==> ValueOf(ph1.binder, n) == ValueOf(ph.binder, n)
    requires e !in src.binder.forward ==> ph1 == ph
    ensures BoundCloned(ph1, src, mapping, x)
  {
    if x in src.binder.forward && x != e {
      if e in src.binder.forward {
        assert mapping[x] != mapping[e];
        assert ValueOf(ph1.binder, mapping[x]) == ValueOf(ph.binder, mapping[x]);
      }
      BodyClonedKept(ph, ph1, src, src.binder.forward[x], ph.binder.forward[mapping[x]]);
    }
  }

  /** The outer physics loop binds the copy of every bound node under every root to a clone of its body. */
  lemma {:induction false} CloneRootsPhysicsValues(ph: Physics, res: DeepCloneResult, srcGraph: Graph, src: Physics, mapping: map<Handle, Handle>, roots: seq<Handle>)
    requires CloneRootsPhysics(ph, res, srcGraph, src, mapping, roots).Some? && Unshared(mapping)
    ensures var (ph1, _) := CloneRootsPhysics(ph, res, srcGraph, src, mapping, roots).value;
      PhysicsKept(ph, ph1)
      && (forall x, d :: x in roots && Traverse(srcGraph, x).Some? && d in Traverse(srcGraph, x).value ==> BoundCloned(ph1, src, mapping, d))
      && (forall x :: BoundCloned(ph, src, mapping, x) ==> BoundCloned(ph1, src, mapping, x))
    decreases |roots|
  {
    if roots != [] {
      var init := roots[..|roots| - 1];
      var last := roots[|roots| - 1];
      assert roots == init + [last];
      CloneRootsPhysicsValues(ph, res, srcGraph, src, mapping, init);
      var (ph1, res1) := CloneRootsPhysics(ph, res, srcGraph, src, mapping, init).value;
      var ds := Traverse(srcGraph, last).value;
      CloneDescendantsValues(ph1, res1, src, mapping, ds);
      var (ph2, _) := CloneDescendants(ph1, res1, src, mapping, ds).value;
      forall x, d | x in roots && Traverse(srcGraph, x).Some? && d in Traverse(srcGraph, x).value
        ensures BoundCloned(ph2, src, mapping, d)
      {
        if x != last {
          assert x in init;
        }
      }
      forall b | IsLive(ph.bodies, b) ensures IsLive(ph2.bodies, b) && Get(ph2.bodies, b) == Get(ph.bodies, b) {
        assert IsLive(ph1.bodies, b);
      }
      forall c | IsLive(ph.colliders, c) ensures IsLive(ph2.colliders, c) && Get(ph2.colliders, c) == Get(ph.colliders, c) {
        assert IsLive(ph1.colliders, c);
      }
    }
  }

  /** The images of `xs` under `m`, in order. */
  function Mapped(xs: seq<Handle>, m: map<Handle, Handle>): (r: seq<Handle>)
    requires forall x :: x in xs ==> x in m
    ensures |r| == |xs| && forall i :: 0 <= i < |xs| ==> r[i] == m[xs[i]]
  {
    if xs == [] then [] else [m[xs[0]]] + Mapped(xs[1..], m)
  }

  /** A root is the first node its own traversal yields, so it has a copy. */
  lemma RootsMapped(src: Graph, roots: seq<Handle>, m: map<Handle, Handle>)
    requires CoversRoots(src, roots, m)
    ensures forall x :: x in roots ==> x in m
  {
    forall x | x in roots ensures x in m {
      assert Traverse(src, x).value[0] == x;
    }
  }

  /**
   * `deep_clone_nodes`: copies the sub-graphs of `roots` from the source scene into
   * the destination and copies the bodies and colliders bound to them; joints are
   * not copied. `None` when it panics.
   */
  function DeepClone(roots: seq<Handle>, srcGraph: Graph, srcPhysics: Physics, destGraph: Graph, destPhysics: Physics): (r: Option<(Graph, Physics, DeepCloneResult)>)
  {
    match CopyRoots(srcGraph, roots, destGraph)
    case None => None
    case Some((g, mapping)) =>
      RootsMapped(srcGraph, roots, mapping);
      match CloneRootsPhysics(destPhysics, EmptyResult.(rootNodes := Mapped(roots, mapping)), srcGraph, srcPhysics, mapping, roots)
      case None => None
      case Some((ph, res)) => Some((g, ph, res))
  }

  /** A successful deep clone is the merged copy of the roots, then the physics loop started from the root copies. */
  lemma DeepCloneSteps(roots: seq<Handle>, srcGraph: Graph, srcPhysics: Physics, destGraph: Graph, destPhysics: Physics)
    requires DeepClone(roots, srcGraph, srcPhysics, destGraph, destPhysics).Some?
    ensures CopyRoots(srcGraph, roots, destGraph).Some?
    ensures var (g, m) := CopyRoots(srcGraph, roots, destGraph).value;
      (forall x :: x in roots ==> x in m)
      && var start := EmptyResult.(rootNodes := Mapped(roots, m));
      CloneRootsPhysics(destPhysics, start, srcGraph, srcPhysics, m, roots).Some?
      && DeepClone(roots, srcGraph, srcPhysics, destGraph, destPhysics).value
         == (g, CloneRootsPhysics(destPhysics, start, srcGraph, srcPhysics, m, roots).value.0,
             CloneRootsPhysics(destPhysics, start, srcGraph, srcPhysics, m, roots).value.1)
  {
    var (g, m) := CopyRoots(srcGraph, roots, destGraph).value;
    RootsMapped(srcGraph, roots, m);
  }

  /**
   * The root copies a successful deep clone reports, in terms of the
   * original-to-copy mapping `m` that copying the roots built: the copy of each
   * root, in the order of `roots`, each a fresh node of the destination graph, and
   * no two roots share a copy.
   */
  lemma DeepCloneRoots(roots: seq<Handle>, srcGraph: Graph, srcPhysics: Physics, destGraph: Graph, destPhysics: Physics)
    requires DeepClone(roots, srcGraph, srcPhysics, destGraph, destPhysics).Some?
    ensures CopyRoots(srcGraph, roots, destGraph).Some?
    ensures var (g, _, res) := DeepClone(roots, srcGraph, srcPhysics, destGraph, destPhysics).value;
      var m := CopyRoots(srcGraph, roots, destGraph).value.1;
      |res.rootNodes| == |roots|
      && (forall i :: 0 <= i < |roots| ==> roots[i] in m && res.rootNodes[i] == m[roots[i]])
      && (forall i :: 0 <= i < |roots| ==> IsLive(g.pool, res.rootNodes[i]) && !IsLive(destGraph.pool, res.rootNodes[i]))
      && (forall i, j :: 0 <= i < |roots| && 0 <= j < |roots| && roots[i] != roots[j] ==> res.rootNodes[i] != res.rootNodes[j])
  {
    DeepCloneSteps(roots, srcGraph, srcPhysics, destGraph, destPhysics);
    var (g, mapping) := CopyRoots(srcGraph, roots, destGraph).value;
    var start := EmptyResult.(rootNodes := Mapped(roots, mapping));
    var (ph, res) := CloneRootsPhysics(destPhysics, start, srcGraph, srcPhysics, mapping, roots).value;
    RootCopiesFresh(roots, mapping, destGraph.pool, g.pool, res.rootNodes);
  }

  /** The copies of distinct roots under an unshared map of fresh copies are distinct fresh nodes. */
  lemma RootCopiesFresh(roots: seq<Handle>, m: map<Handle, Handle>, before: Pool<Node>, after: Pool<Node>, copies: seq<Handle>)
    requires (forall x :: x in roots ==> x in m) && copies == Mapped(roots, m)
    requires FreshCopies(before, after, m)
    ensures |copies| == |roots|
    ensures forall i :: 0 <= i < |roots| ==> roots[i] in m && copies[i] == m[roots[i]]
    ensures forall i :: 0 <= i < |roots| ==> IsLive(after, copies[i]) && !IsLive(before, copies[i])
    ensures forall i, j :: 0 <= i < |roots| && 0 <= j < |roots| && roots[i] != roots[j] ==> copies[i] != copies[j]
  {
    assert forall i :: 0 <= i < |roots| ==> roots[i] in roots;
  }

  /**
   * What a successful deep clone promises about the physics, in terms of the same
   * mapping `m`: every bound source descendant gets a binder entry keyed by its own
   * copy, and every entry is keyed by a fresh node of the destination graph; the
   * result is consistent with the destination physics (see `CloneConsistent`) and
   * holds no joints.
   */
  lemma DeepCloneProperties(roots: seq<Handle>, srcGraph: Graph, srcPhysics: Physics, destGraph: Graph, destPhysics: Physics)
    requires DeepClone(roots, srcGraph, srcPhysics, destGraph, destPhysics).Some?
    ensures CopyRoots(srcGraph, roots, destGraph).Some?
    ensures var (g, ph, res) := DeepClone(roots, srcGraph, srcPhysics, destGraph, destPhysics).value;
      var m := CopyRoots(srcGraph, roots, destGraph).value.1;
      (forall x, d :: x in roots && d in Traverse(srcGraph, x).value && d in srcPhysics.binder.forward ==>
         d in m && m[d] in EntryKeys(res.binder))
      && (forall n :: n in EntryKeys(res.binder) ==> IsLive(g.pool, n) && !IsLive(destGraph.pool, n))
      && CloneConsistent(ph, res)
      && res.joints == []
  {
    DeepCloneSteps(roots, srcGraph, srcPhysics, destGraph, destPhysics);
    var (g, mapping) := CopyRoots(srcGraph, roots, destGraph).value;
    var start := EmptyResult.(rootNodes := Mapped(roots, mapping));
    assert CloneConsistent(destPhysics, start);
    var (ph, res) := CloneRootsPhysics(destPhysics, start, srcGraph, srcPhysics, mapping, roots).value;
  }

  /**
   * A successful deep clone binds the copy of every bound source descendant, in
   * the destination binder, to a clone of its body: the same body, whose colliders
   * are clones, in order, of the original's colliders attached to the clone.
   */
  lemma DeepCloneValues(roots: seq<Handle>, srcGraph: Graph, srcPhysics: Physics, destGraph: Graph, destPhysics: Physics)
    requires DeepClone(roots, srcGraph, srcPhysics, destGraph, destPhysics).Some?
    ensures CopyRoots(srcGraph, roots, destGraph).Some?
    ensures var (_, ph, _) := DeepClone(roots, srcGraph, srcPhysics, destGraph, destPhysics).value;
      var m := CopyRoots(srcGraph, roots, destGraph).value.1;
      forall x, d :: x in roots && Traverse(srcGraph, x).Some? && d in Traverse(srcGraph, x).value ==>
        BoundCloned(ph, srcPhysics, m, d)
  {
    DeepCloneSteps(roots, srcGraph, srcPhysics, destGraph, destPhysics);
    var (g, mapping) := CopyRoots(srcGraph, roots, destGraph).value;
    var start := EmptyResult.(rootNodes := Mapped(roots, mapping));
    CloneRootsPhysicsValues(destPhysics, start, srcGraph, srcPhysics, mapping, roots);
    var (ph, res) := CloneRootsPhysics(destPhysics, start, srcGraph, srcPhysics, mapping, roots).value;
  }

  /**
   * What a successful deep clone does to the graph, in terms of the same mapping
   * `m`: every copy is a fresh node holding its original's data, and the
   * destination's nodes other than its root are unchanged. When the roots'
   * sub-graphs are disjoint, the copies reproduce the hierarchy, every root's copy
   * hangs under the destination's root, and the reported root copies are appended,
   * in order, to that root's children.
   */
  lemma DeepCloneGraph(roots: seq<Handle>, srcGraph: Graph, srcPhysics: Physics, destGraph: Graph, destPhysics: Physics)
    requires DeepClone(roots, srcGraph, srcPhysics, destGraph, destPhysics).Some?
    ensures CopyRoots(srcGraph, roots, destGraph).Some?
    ensures var (g, _, res) := DeepClone(roots, srcGraph, srcPhysics, destGraph, destPhysics).value;
      var m := CopyRoots(srcGraph, roots, destGraph).value.1;
      FreshCopies(destGraph.pool, g.pool, m)
      && (forall d :: d in m ==> IsLive(srcGraph.pool, d) && RawCopy(Get(g.pool, m[d])) == RawCopy(Get(srcGraph.pool, d)))
      && (forall h :: IsLive(destGraph.pool, h) ==> IsLive(g.pool, h))
      && (forall h :: IsLive(destGraph.pool, h) && h != destGraph.root ==> Get(g.pool, h) == Get(destGraph.pool, h))
      && (DisjointRoots(srcGraph, roots) ==>
            HierarchyCopied(srcGraph, g, m, m.Keys, Listed(roots))
            && (forall x :: x in roots ==> x in m && Get(g.pool, m[x]).parent == destGraph.root)
            && (roots != [] ==>
                  Get(g.pool, destGraph.root).children == Get(destGraph.pool, destGraph.root).children + res.rootNodes))
  {
    DeepCloneSteps(roots, srcGraph, srcPhysics, destGraph, destPhysics);
    var (g, mapping) := CopyRoots(srcGraph, roots, destGraph).value;
    var start := EmptyResult.(rootNodes := Mapped(roots, mapping));
    var (ph, res) := CloneRootsPhysics(destPhysics, start, srcGraph, srcPhysics, mapping, roots).value;
  }

  /** `deep_clone_nodes` step by step, with its loops; a panic leaves `None` for the rest. */
  method DeepCloneNodes(roots: seq<Handle>, srcGraph: Graph, srcPhysics: Physics, destGraph: Graph, destPhysics: Physics)
    returns (r: Option<(Graph, Physics, DeepCloneResult)>)
    ensures r == DeepClone(roots, srcGraph, srcPhysics, destGraph, destPhysics)
  {
    var copied := CopyEachRoot(srcGraph, roots, destGraph);
    if copied.None? {
      return None;
    }
    var (g, mapping) := copied.value;
    RootsMapped(srcGraph, roots, mapping);
    var start := EmptyResult.(rootNodes := Mapped(roots, mapping));
    var cloned := CloneEachRootPhysics(destPhysics, start, srcGraph, srcPhysics, mapping, roots);
    if cloned.None? {
      return None;
    }
    r := Some((g, cloned.value.0, cloned.value.1));
  }

  /** Copies every root's sub-graph and merges the mappings. */
  method CopyEachRoot(srcGraph: Graph, roots: seq<Handle>, destGraph: Graph) returns (copied: Option<(Graph, map<Handle, Handle>)>)
    ensures copied == CopyRoots(srcGraph, roots, destGraph)
  {
    copied := Some((destGraph, map[]));
    for i := 0 to |roots|
      invariant copied == CopyRoots(srcGraph, roots[..i], destGraph)
    {
      CopyRootsNext(srcGraph, roots[..i], roots[i], destGraph);
      assert roots[..i + 1] == roots[..i] + [roots[i]];
      if copied.Some? {
        var (g, mapping) := copied.value;
        var one := CopyNode(srcGraph, roots[i], g);
        if one.None? {
          copied := None;
        } else {
          var (g1, m1) := one.value;
          copied := Some((g1, mapping + m1));
        }
      }
    }
    assert roots[..|roots|] == roots;
  }

  /** Copying one more root copies it into what copying the others gave. */
  lemma CopyRootsNext(src: Graph, roots: seq<Handle>, last: Handle, dest: Graph)
    ensures CopyRoots(src, roots + [last], dest) ==
      match CopyRoots(src, roots, dest)
      case None => None
      case Some((g1, m1)) =>
        match CopyNode(src, last, g1)
        case None => None
        case Some((g2, m2)) => Some((g2, m1 + m2))
  {
    assert (roots + [last])[..|roots|] == roots;
  }


  /** Copies the bodies and colliders bound to every descendant of every root. */
  method CloneEachRootPhysics(ph: Physics, start: DeepCloneResult, srcGraph: Graph, srcPhysics: Physics, mapping: map<Handle, Handle>, roots: seq<Handle>)
    returns (cloned: Option<(Physics, DeepCloneResult)>)
    ensures cloned == CloneRootsPhysics(ph, start, srcGraph, srcPhysics, mapping, roots)
  {
    cloned := Some((ph, start));
    for i := 0 to |roots|
      invariant cloned == CloneRootsPhysics(ph, start, srcGraph, srcPhysics, mapping, roots[..i])
    {
      assert roots[..i + 1][..i] == roots[..i];
      if cloned.Some? {
        var traversal := Traverse(srcGraph, roots[i]);
        if traversal.None? {
          cloned := None;
        } else {
          cloned := CloneDescendantsLoop(cloned.value.0, cloned.value.1, srcPhysics, mapping, traversal.value);
        }
      }
    }
    assert roots[..|roots|] == roots;
  }


  /** The loop over one root's descendants in `deep_clone_nodes`. */
  method CloneDescendantsLoop(ph: Physics, res: DeepCloneResult, src: Physics, mapping: map<Handle, Handle>, ds: seq<Handle>)
    returns (r: Option<(Physics, DeepCloneResult)>)
    ensures r == CloneDescendants(ph, res, src, mapping, ds)
  {
    r := Some((ph, res));
    for j := 0 to |ds|
      invariant r == CloneDescendants(ph, res, src, mapping, ds[..j])
    {
      assert ds[..j + 1][..j] == ds[..j];
      if r.Some? && ds[j] in src.binder.forward {
        var (ph0, res0) := r.value;
        var body := src.binder.forward[ds[j]];
        if !IsLive(src.bodies, body) {
          r := None;
        } else {
          var original := Get(src.bodies, body);
          var (bodies, bodyCopy) := Spawn(ph0.bodies, original.(colliders := []));
          var ph1 := ph0.(bodies := bodies);
          var res1 := res0.(bodies := res0.bodies + [bodyCopy]);
          var withColliders := CloneCollidersLoop(ph1, res1, src, bodyCopy, original.colliders);
          if withColliders.None? || ds[j] !in mapping {
            r := None;
          } else {
            var (ph2, res2) := withColliders.value;
            var node := mapping[ds[j]];
            r := Some((ph2.(binder := BinderInsert(ph2.binder, node, bodyCopy)), res2.(binder := res2.binder + [(node, bodyCopy)])));
          }
        }
      }
    }
    assert ds[..|ds|] == ds;
  }

  /** The loop over one body's colliders in `deep_clone_nodes`. */
  method CloneCollidersLoop(ph: Physics, res: DeepCloneResult, src: Physics, bodyCopy: Handle, cs: seq<Handle>)
    returns (r: Option<(Physics, DeepCloneResult)>)
    ensures r == CloneColliders(ph, res, src, bodyCopy, cs)
  {
    r := Some((ph, res));
    for k := 0 to |cs|
      invariant r == CloneColliders(ph, res, src, bodyCopy, cs[..k])
    {
      assert cs[..k + 1][..k] == cs[..k];
      if r.Some? {
        var (ph0, res0) := r.value;
        var c := cs[k];
        if !IsLive(src.colliders, c) || !IsLive(ph0.bodies, bodyCopy) {
          r := None;
        } else {
          var (colliders, colliderCopy) := Spawn(ph0.colliders, Get(src.colliders, c).(parent := bodyCopy));
          var body := Get(ph0.bodies, bodyCopy);
          r := Some((ph0.(colliders := colliders, bodies := Set(ph0.bodies, bodyCopy, body.(colliders := body.colliders + [colliderCopy]))),
                     res0.(colliders := res0.colliders + [colliderCopy])));
        }
      }
    }
    assert cs[..|cs|] == cs;
  }

  /** The clipboard's contents: a scene of its own and whether anything was copied. */
  datatype ClipboardData = ClipboardData(graph: Graph, physics: Physics, empty: bool)

  const EmptyClipboard := ClipboardData(NewGraph(), EmptyPhysics, true)

  /**
   * `Clipboard::paste`: clones the children of the clipboard's root into the
   * destination scene. `None` when the clipboard is empty (the assertion fails) or
   * the clone panics.
   */
  function PasteFrom(c: ClipboardData, destGraph: Graph, destPhysics: Physics): (r: Option<(Graph, Physics, DeepCloneResult)>)
    ensures c.empty ==> r.None?
    ensures !c.empty && IsLive(c.graph.pool, c.graph.root) ==>
      r == DeepClone(Children(c.graph, c.graph.root), c.graph, c.physics, destGraph, destPhysics)
    ensures !IsLive(c.graph.pool, c.graph.root) ==> r.None?
  {
    if c.empty || !IsLive(c.graph.pool, c.graph.root) then None
    else DeepClone(Children(c.graph, c.graph.root), c.graph, c.physics, destGraph, destPhysics)
  }

  /** The editor's clipboard. */
  class Clipboard {
    var graph: Graph
    var physics: Physics
    var empty: bool

    /** The state as a value. */
    function Data(): ClipboardData
      reads this
    {
      ClipboardData(graph, physics, empty)
    }

    /** `Clipboard::default`: an empty clipboard. */
    constructor()
      ensures Data() == EmptyClipboard
    {
      graph := NewGraph();
      physics := EmptyPhysics;
      empty := true;
    }

    /** `Clipboard::clear`: forgets what was copied. */
    method Clear()
      modifies this
      ensures Data() == EmptyClipboard
    {
      empty := true;
      graph := NewGraph();
      physics := EmptyPhysics;
    }

    /**
     * `Clipboard::fill_from_selection`: clears the clipboard and copies the root
     * nodes of the selection, with their bound bodies and colliders, under the
     * clipboard's own root. `completed` is false when `root_nodes` panics on a
     * dead selected node or the clone panics; the clipboard is then left cleared.
     */
    method FillFromSelection(selection: GraphSelection, sceneGraph: Graph, scenePhysics: Physics) returns (completed: bool)
      requires WellLinked(sceneGraph)
      modifies this
      ensures completed ==> forall h :: h in selection.nodes ==> IsLive(sceneGraph.pool, h)
      ensures (forall h :: h in selection.nodes ==> IsLive(sceneGraph.pool, h)) ==>
        var cloned := DeepClone(RootNodesOf(selection, sceneGraph), sceneGraph, scenePhysics, NewGraph(), EmptyPhysics);
        completed == cloned.Some?
        && (completed ==> Data() == ClipboardData(cloned.value.0, cloned.value.1, false))
      ensures !completed ==> Data() == EmptyClipboard
    {
      Clear();
      var live := AllLive(sceneGraph, selection.nodes);
      if !live {
        return false;
      }
      var roots := RootNodes(selection, sceneGraph);
      var cloned := DeepCloneNodes(roots, sceneGraph, scenePhysics, graph, physics);
      if cloned.None? {
        return false;
      }
      graph, physics := cloned.value.0, cloned.value.1;
      empty := false;
      completed := true;
    }

    /**
     * `Clipboard::paste`: clones what the clipboard holds into the destination
     * scene; the clipboard itself is left as it was, so it can be pasted again.
     */
    method Paste(destGraph: Graph, destPhysics: Physics) returns (r: Option<(Graph, Physics, DeepCloneResult)>)
      ensures r == PasteFrom(Data(), destGraph, destPhysics)
    {
      if empty || !IsLive(graph.pool, graph.root) {
        return None;
      }
      r := DeepCloneNodes(Children(graph, graph.root), graph, physics, destGraph, destPhysics);
    }
  }
}
