/**
 * `ChangeSelectionCommand`: execute and revert both hand the command's "new"
 * selection to the scene (when it differs from the current one by the custom
 * selection equality, also sending one `SelectionChanged` message) and exchange
 * the command's two selections.
 *
 * The comparison is `Selection`'s derived equality, which compares node lists with
 * `GraphSelection::eq`, a one-way subset test. Undo of a change that only adds
 * nodes therefore does nothing: `ChangeSelectionUndoAsWritten` pins down exactly
 * when undo fails, `UndoGrowingSelectionFails` exhibits one input, and
 * `ChangeSelectionSwap` is the corrected command, comparing node lists as sets,
 * whose undo always restores the selection (`ChangeSelectionUndo`).
 */
module SelectionCommands {
  import opened Pools
  import opened Selections
  import opened Scenes

  /** The fields of `ChangeSelectionCommand`. */
  datatype ChangeSelectionState = ChangeSelectionState(newSelection: Selection, oldSelection: Selection)

  /** `ChangeSelectionCommand::new(new, old)`; the editor passes the current selection as `old`. */
  function NewChangeSelection(newSelection: Selection, oldSelection: Selection): ChangeSelectionState
  {
    ChangeSelectionState(newSelection, oldSelection)
  }

  /** Node lists are equal when they hold the same nodes, in any order and with any repetition. */
  predicate SameNodes(a: GraphSelection, b: GraphSelection)
  {
    (forall i :: 0 <= i < |a.nodes| ==> a.nodes[i] in b.nodes)
    && (forall i :: 0 <= i < |b.nodes| ==> b.nodes[i] in a.nodes)
  }

  /** `Selection` equality with node lists compared as sets. */
  predicate SelectionSetEq(x: Selection, y: Selection)
  {
    match (x, y)
    case (NoSelection, NoSelection) => true
    case (GraphNodes(a), GraphNodes(b)) => SameNodes(a, b)
    case (NavmeshEntities(a), NavmeshEntities(b)) => a == b
    case _ => false
  }

  /** Set equality of node lists is the subset test of `GraphSelection::eq` made to hold both ways. */
  lemma SameNodesIsMutualEq(a: GraphSelection, b: GraphSelection)
    ensures SameNodes(a, b) <==> GraphSelectionEq(a, b) && GraphSelectionEq(b, a)
  {
    if |a.nodes| == 0 || |b.nodes| == 0 {
      if |a.nodes| == 0 {
        EqEmpty(a, b);
      } else {
        EqEmpty(b, a);
      }
    }
  }

  /** Set equality of selections is reflexive and symmetric, and implies the derived equality both ways. */
  lemma SelectionSetEqProperties(x: Selection, y: Selection)
    ensures SelectionSetEq(x, x)
    ensures SelectionSetEq(x, y) <==> SelectionSetEq(y, x)
    ensures SelectionSetEq(x, y) <==> SelectionEq(x, y) && SelectionEq(y, x)
  {
    if x.GraphNodes? && y.GraphNodes? {
      SameNodesIsMutualEq(x.graph, y.graph);
    }
  }

  /** The derived selection equality is reflexive. */
  lemma SelectionEqReflexive(x: Selection)
    ensures SelectionEq(x, x)
  {
    if x.GraphNodes? {
      EqIgnoresOrder(x.graph, x.graph);
    }
  }

  /**
   * `execute` and `revert` as written: the scene takes the command's new selection
   * unless it is already equal by `SelectionEq(new, current)`, and only then is a
   * `SelectionChanged` message counted; the command's two selections trade places.
   */
  function ChangeSelectionSwapAsWritten(s: Scene, c: ChangeSelectionState): (r: (Scene, ChangeSelectionState))
    ensures r.1 == ChangeSelectionState(c.oldSelection, c.newSelection)
    ensures r.0 == s.(selection := r.0.selection, selectionChanged := r.0.selectionChanged)
    ensures !SelectionEq(c.newSelection, s.selection) <==> r.0.selectionChanged == s.selectionChanged + 1
    ensures !SelectionEq(c.newSelection, s.selection) ==> r.0.selection == c.newSelection
    ensures SelectionEq(c.newSelection, s.selection) ==> r.0 == s
  {
    var selection := c.newSelection;
    var c1 := ChangeSelectionState(c.oldSelection, c.newSelection);
    if !SelectionEq(selection, s.selection) then
      (s.(selection := selection, selectionChanged := s.selectionChanged + 1), c1)
    else
      (s, c1)
  }

  /**
   * As written, undo of a change made from the current selection restores it
   * exactly when the old selection is not equal to the new one by
   * `SelectionEq(old, new)`, or the new one was already equal to it by
   * `SelectionEq(new, old)` (so the change did nothing).
   */
  lemma ChangeSelectionUndoAsWritten(s: Scene, newSelection: Selection)
    ensures var c := NewChangeSelection(newSelection, s.selection);
      var (s1, c1) := ChangeSelectionSwapAsWritten(s, c);
      var (s2, c2) := ChangeSelectionSwapAsWritten(s1, c1);
      c2 == c
      && (s2.selection == s.selection
          <==> SelectionEq(newSelection, s.selection) || !SelectionEq(s.selection, newSelection))
  {
    SelectionEqReflexive(s.selection);
    var c := NewChangeSelection(newSelection, s.selection);
    var (s1, c1) := ChangeSelectionSwapAsWritten(s, c);
    if !SelectionEq(newSelection, s.selection) {
      assert s1.selection == newSelection;
      assert newSelection != s.selection by {
        SelectionEqReflexive(newSelection);
      }
    }
  }

  /**
   * Growing the selection from `[x]` to `[x, y]` and undoing leaves `[x, y]`
   * selected: `[x]` is a subset of `[x, y]`, so revert finds the selections equal.
   */
  lemma UndoGrowingSelectionFails(s: Scene)
    requires s.selection == GraphNodes(GraphSelection([Handle(1, 1)]))
    ensures var c := NewChangeSelection(GraphNodes(GraphSelection([Handle(1, 1), Handle(2, 1)])), s.selection);
      var (s1, c1) := ChangeSelectionSwapAsWritten(s, c);
      var (s2, c2) := ChangeSelectionSwapAsWritten(s1, c1);
      s1.selection == GraphNodes(GraphSelection([Handle(1, 1), Handle(2, 1)]))
      && s2.selection == GraphNodes(GraphSelection([Handle(1, 1), Handle(2, 1)]))
      && s2.selection != s.selection
  {
    EqNotSymmetric();
  }

  /**
   * `execute` and `revert` with the comparison the equality's comment describes
   * (node lists equal regardless of order): the scene takes the command's new
   * selection unless it holds the same nodes, and only then is a message counted.
   */
  function ChangeSelectionSwap(s: Scene, c: ChangeSelectionState): (r: (Scene, ChangeSelectionState))
    ensures r.1 == ChangeSelectionState(c.oldSelection, c.newSelection)
    ensures r.0 == s.(selection := r.0.selection, selectionChanged := r.0.selectionChanged)
    ensures !SelectionSetEq(c.newSelection, s.selection) <==> r.0.selectionChanged == s.selectionChanged + 1
    ensures !SelectionSetEq(c.newSelection, s.selection) ==> r.0.selection == c.newSelection
    ensures SelectionSetEq(c.newSelection, s.selection) ==> r.0 == s
  {
    var selection := c.newSelection;
    var c1 := ChangeSelectionState(c.oldSelection, c.newSelection);
    if !SelectionSetEq(selection, s.selection) then
      (s.(selection := selection, selectionChanged := s.selectionChanged + 1), c1)
    else
      (s, c1)
  }

  /**
   * Undo of a selection change made from the current selection restores the
   * selection and the command, with either no message or one message each way;
   * redo then repeats the first execution.
   */
  lemma ChangeSelectionUndo(s: Scene, newSelection: Selection)
    ensures var c := NewChangeSelection(newSelection, s.selection);
      var (s1, c1) := ChangeSelectionSwap(s, c);
      var (s2, c2) := ChangeSelectionSwap(s1, c1);
      c2 == c
      && s2 == s.(selectionChanged := s2.selectionChanged)
      && (SelectionSetEq(newSelection, s.selection) ==> s2 == s && s1 == s)
      && (!SelectionSetEq(newSelection, s.selection) ==> s2.selectionChanged == s.selectionChanged + 2)
      && ChangeSelectionSwap(s2, c2).0.selection == s1.selection && ChangeSelectionSwap(s2, c2).1 == c1
  {
    SelectionSetEqProperties(newSelection, s.selection);
    SelectionSetEqProperties(s.selection, s.selection);
  }
}
