/**
 * `CommandGroup`'s three loops, over any command type `C` run against any state
 * `S` by a step that may panic (`None`): `execute` walks the list front to
 * back, `revert` walks it back to front (`iter_mut().rev()`), and `finalize`
 * drains it front to back. Each command is updated in place, so the resulting
 * list keeps every command at its position.
 */
module CommandGroups {
  import opened Pools

  /** `CommandGroup::execute`: each command runs in the state the previous one left. */
  function Forward<S, C>(step: (S, C) -> Option<(S, C)>, s: S, cs: seq<C>): (r: Option<(S, seq<C>)>)
    ensures r.Some? ==> |r.value.1| == |cs|
    decreases |cs|
  {
    if |cs| == 0 then Some((s, []))
    else
      match step(s, cs[0])
      case None => None
      case Some((s1, c1)) =>
        match Forward(step, s1, cs[1..])
        case None => None
        case Some((s2, rest)) => Some((s2, [c1] + rest))
  }

  /** `CommandGroup::revert`: the tail of the list runs first, then its head in the state the tail left. */
  function Backward<S, C>(step: (S, C) -> Option<(S, C)>, s: S, cs: seq<C>): (r: Option<(S, seq<C>)>)
    ensures r.Some? ==> |r.value.1| == |cs|
    decreases |cs|
  {
    if |cs| == 0 then Some((s, []))
    else
      match Backward(step, s, cs[1..])
      case None => None
      case Some((s1, rest)) =>
        match step(s1, cs[0])
        case None => None
        case Some((s2, c1)) => Some((s2, [c1] + rest))
  }

  /** `CommandGroup::finalize`: drains the list, running each command front to back; the commands are dropped. */
  function Drain<S, C>(step: (S, C) -> Option<(S, C)>, s: S, cs: seq<C>): (r: Option<S>)
    decreases |cs|
  {
    if |cs| == 0 then Some(s)
    else
      match step(s, cs[0])
      case None => None
      case Some((s1, _)) => Drain(step, s1, cs[1..])
  }

  /** Runs `Forward` on `a` and then on `b` from where `a` stopped. */
  function Then<S, C>(step: (S, C) -> Option<(S, C)>, first: Option<(S, seq<C>)>, b: seq<C>): Option<(S, seq<C>)>
  {
    match first
    case None => None
    case Some((s1, a1)) =>
      match Forward(step, s1, b)
      case None => None
      case Some((s2, b1)) => Some((s2, a1 + b1))
  }

  /** Executing a concatenation executes the first part completely before the second. */
  lemma {:induction false} ForwardAppend<S, C>(step: (S, C) -> Option<(S, C)>, s: S, a: seq<C>, b: seq<C>)
    ensures Forward(step, s, a + b) == Then(step, Forward(step, s, a), b)
    decreases |a|
  {
    if |a| == 0 {
      assert a + b == b;
      match Forward(step, s, b)
      case None =>
      case Some((s2, b1)) => assert [] + b1 == b1;
    } else {
      assert (a + b)[0] == a[0];
      assert (a + b)[1..] == a[1..] + b;
      match step(s, a[0])
      case None =>
      case Some((s1, c1)) =>
        ForwardAppend(step, s1, a[1..], b);
        match Forward(step, s1, a[1..])
        case None =>
        case Some((s2, rest)) =>
          match Forward(step, s2, b)
          case None =>
          case Some((s3, b1)) =>
            assert [c1] + (rest + b1) == ([c1] + rest) + b1;
    }
  }

  /** Reverting a concatenation reverts the second part completely before the first. */
  lemma {:induction false} BackwardAppend<S, C>(step: (S, C) -> Option<(S, C)>, s: S, a: seq<C>, b: seq<C>)
    ensures Backward(step, s, a + b) ==
      match Backward(step, s, b)
      case None => None
      case Some((s1, b1)) =>
        match Backward(step, s1, a)
        case None => None
        case Some((s2, a1)) => Some((s2, a1 + b1))
    decreases |a|
  {
    if |a| == 0 {
      assert a + b == b;
      match Backward(step, s, b)
      case None =>
      case Some((s1, b1)) => assert [] + b1 == b1;
    } else {
      assert (a + b)[0] == a[0];
      assert (a + b)[1..] == a[1..] + b;
      BackwardAppend(step, s, a[1..], b);
      match Backward(step, s, b)
      case None =>
      case Some((s1, b1)) =>
        match Backward(step, s1, a[1..])
        case None =>
        case Some((s2, rest)) =>
          match step(s2, a[0])
          case None =>
          case Some((s3, c1)) =>
            assert [c1] + (rest + b1) == ([c1] + rest) + b1;
    }
  }

  /** Reverting one more command from the back: the step runs in the state the shorter suffix left. */
  lemma BackwardPeel<S, C>(step: (S, C) -> Option<(S, C)>, s: S, cs: seq<C>, i: nat, t: S, done: seq<C>)
    requires 0 < i <= |cs| && Backward(step, s, cs[i..]) == Some((t, done))
    ensures Backward(step, s, cs[i - 1..]) ==
      match step(t, cs[i - 1])
      case None => None
      case Some((t1, c1)) => Some((t1, [c1] + done))
  {
    assert cs[i - 1..][1..] == cs[i..];
  }

  /** A suffix whose revert panics makes the whole revert panic. */
  lemma BackwardSuffixPanics<S, C>(step: (S, C) -> Option<(S, C)>, s: S, cs: seq<C>, i: nat)
    requires i <= |cs| && Backward(step, s, cs[i..]).None?
    ensures Backward(step, s, cs).None?
  {
    BackwardAppend(step, s, cs[..i], cs[i..]);
    assert cs[..i] + cs[i..] == cs;
  }

  function Reverse<C>(cs: seq<C>): (r: seq<C>)
    ensures |r| == |cs| && forall i :: 0 <= i < |cs| ==> r[i] == cs[|cs| - 1 - i]
  {
    if |cs| == 0 then [] else Reverse(cs[1..]) + [cs[0]]
  }

  /**
   * Reverting runs the commands in exactly the reverse order: it is executing the
   * reversed list, with each command then put back at its own position.
   */
  lemma {:induction false} BackwardIsReversedForward<S, C>(step: (S, C) -> Option<(S, C)>, s: S, cs: seq<C>)
    ensures Backward(step, s, cs) ==
      match Forward(step, s, Reverse(cs))
      case None => None
      case Some((s1, rs)) => Some((s1, Reverse(rs)))
    decreases |cs|
  {
    if |cs| != 0 {
      var rest := cs[1..];
      assert Reverse(cs) == Reverse(rest) + [cs[0]];
      BackwardIsReversedForward(step, s, rest);
      ForwardAppend(step, s, Reverse(rest), [cs[0]]);
      match Forward(step, s, Reverse(rest))
      case None =>
      case Some((s1, rs)) =>
        assert Backward(step, s, rest) == Some((s1, Reverse(rs)));
        assert [cs[0]][0] == cs[0] && [cs[0]][1..] == [];
        match step(s1, cs[0])
        case None =>
        case Some((s2, c1)) =>
          assert Forward(step, s2, [cs[0]][1..]) == Some((s2, []));
          assert [c1] + [] == [c1];
          assert Forward(step, s1, [cs[0]]) == Some((s2, [c1]));
          assert Reverse(rs + [c1]) == [c1] + Reverse(rs);
    }
  }

  /** Finalizing a concatenation finalizes the first part completely before the second. */
  lemma {:induction false} DrainAppend<S, C>(step: (S, C) -> Option<(S, C)>, s: S, a: seq<C>, b: seq<C>)
    ensures Drain(step, s, a + b) == match Drain(step, s, a) case None => None case Some(s1) => Drain(step, s1, b)
    decreases |a|
  {
    if |a| == 0 {
      assert a + b == b;
    } else {
      assert (a + b)[0] == a[0];
      assert (a + b)[1..] == a[1..] + b;
      match step(s, a[0])
      case None =>
      case Some((s1, _)) => DrainAppend(step, s1, a[1..], b);
    }
  }

  /**
   * Every command of the list, run in the state the commands before it leave,
   * can be undone back to that state, and redone to the same state and command
   * as its first execution.
   */
  predicate UndoableEach<S(==), C(==)>(execute: (S, C) -> Option<(S, C)>, revert: (S, C) -> Option<(S, C)>, s: S, cs: seq<C>)
    decreases |cs|
  {
    |cs| == 0
    || (execute(s, cs[0]).Some?
        && var (s1, c1) := execute(s, cs[0]).value;
        revert(s1, c1).Some? && revert(s1, c1).value.0 == s
        && execute(s, revert(s1, c1).value.1) == execute(s, cs[0])
        && UndoableEach(execute, revert, s1, cs[1..]))
  }

  /**
   * Undo and redo of a group: when each command undoes and redoes cleanly where
   * the group runs it, reverting the executed group restores the state, and
   * executing the reverted group again reaches the same state and commands as the
   * first execution.
   */
  lemma {:induction false} GroupUndoRedo<S, C>(execute: (S, C) -> Option<(S, C)>, revert: (S, C) -> Option<(S, C)>, s: S, cs: seq<C>)
    requires UndoableEach(execute, revert, s, cs)
    ensures Forward(execute, s, cs).Some?
    ensures var (s1, cs1) := Forward(execute, s, cs).value;
      Backward(revert, s1, cs1).Some?
      && var (s2, cs2) := Backward(revert, s1, cs1).value;
      s2 == s && Forward(execute, s2, cs2) == Forward(execute, s, cs)
    decreases |cs|
  {
    if |cs| != 0 {
      var (sa, c1) := execute(s, cs[0]).value;
      GroupUndoRedo(execute, revert, sa, cs[1..]);
      var (s1, rest1) := Forward(execute, sa, cs[1..]).value;
      var cs1 := [c1] + rest1;
      assert cs1[1..] == rest1 && cs1[0] == c1;
      var (sb, rest2) := Backward(revert, s1, rest1).value;
      assert sb == sa;
      var (s2, c2) := revert(sa, c1).value;
      var cs2 := [c2] + rest2;
      assert cs2[1..] == rest2 && cs2[0] == c2;
    }
  }

  // ---------------------------------------------------------------- steps that agree on the list

  /** Two steps that agree on every command of the list execute it alike. */
  lemma {:induction false} ForwardAgrees<S, C>(f: (S, C) -> Option<(S, C)>, g: (S, C) -> Option<(S, C)>, s: S, cs: seq<C>)
    requires forall x, i :: 0 <= i < |cs| ==> f(x, cs[i]) == g(x, cs[i])
    ensures Forward(f, s, cs) == Forward(g, s, cs)
    decreases |cs|
  {
    if |cs| != 0 {
      match g(s, cs[0])
      case None =>
      case Some((s1, _)) => ForwardAgrees(f, g, s1, cs[1..]);
    }
  }

  /** Two steps that agree on every command of the list revert it alike. */
  lemma {:induction false} BackwardAgrees<S, C>(f: (S, C) -> Option<(S, C)>, g: (S, C) -> Option<(S, C)>, s: S, cs: seq<C>)
    requires forall x, i :: 0 <= i < |cs| ==> f(x, cs[i]) == g(x, cs[i])
    ensures Backward(f, s, cs) == Backward(g, s, cs)
    decreases |cs|
  {
    if |cs| != 0 {
      BackwardAgrees(f, g, s, cs[1..]);
      match Backward(g, s, cs[1..])
      case None =>
      case Some((s1, _)) => assert f(s1, cs[0]) == g(s1, cs[0]);
    }
  }

  /** Two steps that agree on every command of the list finalize it alike. */
  lemma {:induction false} DrainAgrees<S, C>(f: (S, C) -> Option<(S, C)>, g: (S, C) -> Option<(S, C)>, s: S, cs: seq<C>)
    requires forall x, i :: 0 <= i < |cs| ==> f(x, cs[i]) == g(x, cs[i])
    ensures Drain(f, s, cs) == Drain(g, s, cs)
    decreases |cs|
  {
    if |cs| != 0 {
      match g(s, cs[0])
      case None =>
      case Some((s1, _)) => DrainAgrees(f, g, s1, cs[1..]);
    }
  }

  // ---------------------------------------------------------------- which commands run, and in what order

  /** The step, also appending each command it is handed to a log kept beside the state. */
  function Logged<S, C>(step: (S, C) -> Option<(S, C)>): ((S, seq<C>), C) -> Option<((S, seq<C>), C)>
  {
    (p: (S, seq<C>), c: C) =>
      match step(p.0, c)
      case None => None
      case Some((s1, c1)) => Some(((s1, p.1 + [c]), c1))
  }

  /** Logging changes neither whether the run panics nor the states and commands it produces. */
  lemma {:induction false} ForwardLoggedState<S, C>(step: (S, C) -> Option<(S, C)>, s: S, log: seq<C>, cs: seq<C>)
    ensures Forward(Logged(step), (s, log), cs).Some? <==> Forward(step, s, cs).Some?
    ensures Forward(step, s, cs).Some? ==>
      Forward(Logged(step), (s, log), cs).value.0.0 == Forward(step, s, cs).value.0
      && Forward(Logged(step), (s, log), cs).value.1 == Forward(step, s, cs).value.1
    decreases |cs|
  {
    if |cs| != 0 {
      match step(s, cs[0])
      case None =>
      case Some((s1, _)) => ForwardLoggedState(step, s1, log + [cs[0]], cs[1..]);
    }
  }

  /** Execute hands every command of the list to the step exactly once, front to back. */
  lemma {:induction false} ForwardRunsInOrder<S, C>(step: (S, C) -> Option<(S, C)>, s: S, log: seq<C>, cs: seq<C>)
    ensures Forward(Logged(step), (s, log), cs).Some? ==> Forward(Logged(step), (s, log), cs).value.0.1 == log + cs
    decreases |cs|
  {
    if |cs| == 0 {
      assert log + cs == log;
    } else {
      match step(s, cs[0])
      case None =>
      case Some((s1, _)) =>
        ForwardRunsInOrder(step, s1, log + [cs[0]], cs[1..]);
        assert log + [cs[0]] + cs[1..] == log + cs;
    }
  }

  /** Revert hands every command of the list to the step exactly once, back to front. */
  lemma {:induction false} BackwardRunsInReverse<S, C>(step: (S, C) -> Option<(S, C)>, s: S, log: seq<C>, cs: seq<C>)
    ensures Backward(Logged(step), (s, log), cs).Some? ==> Backward(Logged(step), (s, log), cs).value.0.1 == log + Reverse(cs)
    decreases |cs|
  {
    if |cs| == 0 {
      assert log + Reverse(cs) == log;
    } else {
      BackwardRunsInReverse(step, s, log, cs[1..]);
      assert Reverse(cs) == Reverse(cs[1..]) + [cs[0]];
      assert log + Reverse(cs[1..]) + [cs[0]] == log + Reverse(cs);
    }
  }

  /** Finalize hands every command of the list to the step exactly once, front to back. */
  lemma {:induction false} DrainRunsInOrder<S, C>(step: (S, C) -> Option<(S, C)>, s: S, log: seq<C>, cs: seq<C>)
    ensures Drain(Logged(step), (s, log), cs).Some? ==> Drain(Logged(step), (s, log), cs).value.1 == log + cs
    decreases |cs|
  {
    if |cs| == 0 {
      assert log + cs == log;
    } else {
      match step(s, cs[0])
      case None =>
      case Some((s1, _)) =>
        DrainRunsInOrder(step, s1, log + [cs[0]], cs[1..]);
        assert log + [cs[0]] + cs[1..] == log + cs;
    }
  }
}
