/**
 * Two places where proptest/src/strategy/state_machine.rs, as written, does
 * not do what it evidently means to, each modelled as written next to the
 * witness that exhibits it. The rest of the model uses the corrected
 * definitions `SequentialGen.NewTree` and `SequentialShrink.Simplify`.
 */
module SequentialAsWritten {
  import opened Wrappers
  import opened Acceptance
  import opened Bits
  import TT = TransitionTree
  import opened SequentialTree
  import opened SequentialGen
  import opened SequentialShrink

  /**
   * `new_tree` as written: `max_ix` is `max_size - 1` on `usize`, which
   * panics (with overflow checks, as in test builds) when the sampled size is
   * 0. For every other size it builds the same tree as `NewTree`.
   */
  function NewTreeAsWritten<S, T>(m: Machine<S, T>, initialState: S, start: nat, end: nat, maxSize: nat,
                                  stream: seq<TT.TransitionTree<T>>)
    : (r: Result<SequentialValueTree<S, T>, GenError>)
    requires start <= maxSize <= end
    requires forall i :: 0 <= i < |stream| ==> TT.Valid(stream[i])
    ensures r == Failure(SubtractOverflow) <==> maxSize == 0
    ensures maxSize > 0 ==> r == NewTree(m, initialState, start, end, maxSize, stream)
  {
    match Generate(m, initialState, stream, maxSize)
    case None => Failure(TooManyLocalRejects)
    case Some(trees) =>
      if maxSize < 1 then Failure(SubtractOverflow)
      else Success(Fresh(initialState, trees, start, maxSize - 1))
  }

  /**
   * A size range that admits 0 (such as `0..10`) can sample 0: the code as
   * written then panics, while the corrected generation yields the empty
   * sequence, which satisfies the invariant and cannot be simplified.
   */
  lemma EmptySizeUnderflows<S, T>(m: Machine<S, T>, s: S)
    ensures NewTreeAsWritten(m, s, 0, 9, 0, []) == Failure(SubtractOverflow)
    ensures NewTree(m, s, 0, 9, 0, []).Success?
    ensures var t := NewTree(m, s, 0, 9, 0, []).value;
      Inv(m, t) && CurrentValue(t) == [] && !Simplify(m, t).0
  {
    var t := NewTree(m, s, 0, 9, 0, []).value;
    assert !Simplify(m, t).0 by {
      assert !AllRejected(t) || t.prevShrink.None?;
      assert DeleteStep(m, t) == ToShrinkPhase(t.(shrink := ShrinkTransition(0)));
    }
  }

  /**
   * A bound on the loop iterations and calls of the code as written, counted
   * in unary: each iteration or call uses up one `More`.
   */
  datatype Fuel = Empty | More(rest: Fuel)

  /** A run of the code as written with a bounded number of loop iterations and calls. */
  datatype Run<S, T> = Finished(result: bool, tree: SequentialValueTree<S, T>) | OutOfFuel

  /**
   * `simplify` as written, with `fuel` bounding the iterations of the shrink
   * loop and the recursive calls together. Whenever it finishes, the
   * invariant holds.
   */
  function SimplifyAsWritten<S, T>(m: Machine<S, T>, t: SequentialValueTree<S, T>, fuel: Fuel): (r: Run<S, T>)
    requires Inv(m, t)
    ensures r.Finished? ==> Inv(m, r.tree) && r.tree.initialState == t.initialState
    decreases fuel
  {
    match fuel
    case Empty => OutOfFuel
    case More(rest) =>
      if AllRejected(t) then
        match t.prevShrink
        case Some(ShrinkTransition(ix)) =>
          var (b, t') := TryToFindAcceptable(m, t, ix);
          Finished(b, t')
        case _ => Finished(false, t)
      else
        TrySimplifyAsWritten(m, t, rest)
  }

  /** `try_simplify` as written, with fuel. */
  function TrySimplifyAsWritten<S, T>(m: Machine<S, T>, t: SequentialValueTree<S, T>, fuel: Fuel): (r: Run<S, T>)
    requires Inv(m, t)
    ensures r.Finished? ==> Inv(m, r.tree) && r.tree.initialState == t.initialState
    decreases fuel
  {
    match fuel
    case Empty => OutOfFuel
    case More(rest) =>
      match t.shrink
      case DeleteTransition(_) =>
        (match DeleteStep(m, t)
         case ToShrinkPhase(t') => ShrinkLoopAsWritten(m, t', rest)
         case Deleted(t') => Finished(true, t')
         case Undone(t') => TrySimplifyAsWritten(m, t', rest))
      case ShrinkTransition(_) => ShrinkLoopAsWritten(m, t, rest)
  }

  /**
   * The `while let ShrinkTransition(ix)` loop as written: it only stops when
   * no slot at all is shrinkable, a simplification is accepted, or one is
   * rejected (and `simplify` is called again).
   */
  function ShrinkLoopAsWritten<S, T>(m: Machine<S, T>, t: SequentialValueTree<S, T>, fuel: Fuel): (r: Run<S, T>)
    requires Inv(m, t) && t.shrink.ShrinkTransition?
    ensures r.Finished? ==> Inv(m, r.tree) && r.tree.initialState == t.initialState
    decreases fuel
  {
    match fuel
    case Empty => OutOfFuel
    case More(rest) =>
      match ShrinkStep(m, t)
      case Continue(t') => ShrinkLoopAsWritten(m, t', rest)
      case Return(b, t') => Finished(b, t')
      case Resimplify(t') => SimplifyAsWritten(m, t', rest)
  }

  /**
   * The shape in which the loop as written spins: of two slots, slot 0 is
   * current but its tree is exhausted and already out of the shrinkable set,
   * and slot 1 is `SimplifyRejected` but still shrinkable. The cursor then
   * alternates between the two slots forever.
   */
  ghost predicate Stuck<S, T>(m: Machine<S, T>, w: SequentialValueTree<S, T>) {
    && Inv(m, w) && Size(w) == 2
    && w.included[0] && w.markers[0] == Current && !w.shrinkable[0]
    && !TT.Simplify(w.transitions[0]).0
    && w.included[1] && w.markers[1] == SimplifyRejected && w.shrinkable[1]
  }

  lemma StuckLoopSpins<S, T>(m: Machine<S, T>, w: SequentialValueTree<S, T>, fuel: Fuel)
    requires Stuck(m, w) && w.shrink.ShrinkTransition?
    ensures ShrinkLoopAsWritten(m, w, fuel) == OutOfFuel
  {
    assert Idle(w, 0) && Idle(w, 1) && w.shrinkable[1];
    IdleSpins(m, w, fuel);
  }

  /** A machine whose only precondition is that a transition is not 0. */
  function NonZeroMachine(): Machine<int, int> {
    Machine((s: int, x: int) => x != 0, (s: int, x: int) => s)
  }

  /** Slot 0 can only be 1; slot 1 is 1 and may simplify to 0. */
  function SpinStream(): seq<TT.TransitionTree<int>> {
    [TT.TransitionTree([1], 0), TT.TransitionTree([1, 0], 0)]
  }

  lemma SpinGenerated() returns (t: SequentialValueTree<int, int>)
    ensures NewTree(NonZeroMachine(), 0, 2, 2, 2, SpinStream()) == Success(t)
    ensures Inv(NonZeroMachine(), t) && t == Fresh(0, SpinStream(), 2, 1)
  {
    var m := NonZeroMachine();
    var tree0, tree1 := TT.TransitionTree([1], 0), TT.TransitionTree([1, 0], 0);
    var stream := SpinStream();
    assert TT.Current(tree0) == 1 && TT.Current(tree1) == 1;
    assert m.preconditions(0, 1) && m.next(0, 1) == 0;
    assert Generate(m, 0, [], 0) == Some([]);
    assert [tree1][1..] == [] && stream[1..] == [tree1] && [tree1] + [] == [tree1];
    assert Generate(m, 0, [tree1], 1) == Some([tree1]);
    assert stream[0] == tree0 && [tree0] + [tree1] == stream;
    assert Generate(m, 0, stream, 2) == Some(stream);
    t := NewTree(m, 0, 2, 2, 2, stream).value;
  }

  /**
   * The shape from which the first `simplify` as written reaches `Stuck`:
   * two slots, both included, shrinkable and current, nothing left to delete
   * at the minimum size, slot 0's tree unable to simplify, and slot 1's
   * simplification rejected by the preconditions.
   */
  ghost predicate SpinReady<S, T>(m: Machine<S, T>, t: SequentialValueTree<S, T>) {
    && Inv(m, t) && t.shrink.DeleteTransition? && Size(t) == 2 && t.maxIx == 1
    && Count(t.included) == t.minSize
    && t.included == [true, true] && t.shrinkable == [true, true] && t.markers == [Current, Current]
    && !TT.Simplify(t.transitions[0]).0 && TT.Simplify(t.transitions[1]).0
    && !CheckAcceptable(m, Simplified(t, 1), Some(1))
  }

  /** With nothing to delete, the delete branch hands over to the shrink loop at slot 0. */
  lemma SpinEntersShrinkPhase<S, T>(m: Machine<S, T>, t: SequentialValueTree<S, T>) returns (t1: SequentialValueTree<S, T>)
    requires SpinReady(m, t)
    ensures !AllRejected(t) && DeleteStep(m, t) == ToShrinkPhase(t1)
    ensures Inv(m, t1) && t1 == t.(shrink := ShrinkTransition(0))
  {
    assert t.included[0] && t.markers[0] == Current;
    t1 := t.(shrink := ShrinkTransition(0));
  }

  /** Slot 0 cannot simplify, so it leaves the shrinkable set and the cursor moves on. */
  lemma SpinRetiresSlot0<S, T>(m: Machine<S, T>, t: SequentialValueTree<S, T>, t1: SequentialValueTree<S, T>)
    returns (t2: SequentialValueTree<S, T>)
    requires SpinReady(m, t) && Inv(m, t1) && t1 == t.(shrink := ShrinkTransition(0))
    ensures ShrinkStep(m, t1) == Continue(t2)
    ensures Inv(m, t2) && t2 == t.(shrinkable := [false, true], shrink := ShrinkTransition(1))
  {
    assert t1.shrinkable[0 := false] == [false, true];
    t2 := t.(shrinkable := [false, true], shrink := ShrinkTransition(1));
  }

  /** Slot 1's simplification is rejected: it is marked and `simplify` starts over, stuck. */
  lemma SpinRejectsSlot1<S, T>(m: Machine<S, T>, t: SequentialValueTree<S, T>, t2: SequentialValueTree<S, T>)
    returns (w: SequentialValueTree<S, T>)
    requires SpinReady(m, t) && Inv(m, t2) && t2 == t.(shrinkable := [false, true], shrink := ShrinkTransition(1))
    ensures ShrinkStep(m, t2) == Resimplify(w)
    ensures Stuck(m, w) && w.shrink.ShrinkTransition? && !AllRejected(w)
  {
    CursorIgnored(m, Simplified(t, 1), Simplified(t2, 1), Some(1));
    w := Simplified(t2, 1).(markers := t2.markers[1 := SimplifyRejected], shrink := ShrinkTransition(0));
    assert w.included[0] && w.markers[0] == Current;
  }

  /** `check_acceptable` does not look at the cursor, the shrinkable set or the markers. */
  lemma CursorIgnored<S, T>(m: Machine<S, T>, x: SequentialValueTree<S, T>, y: SequentialValueTree<S, T>, ix: Option<nat>)
    requires Valid(x) && Valid(y)
    requires x.initialState == y.initialState && x.included == y.included
    requires x.acceptable == y.acceptable && x.transitions == y.transitions
    ensures CheckAcceptable(m, x, ix) == CheckAcceptable(m, y, ix)
  {
    assert SlotValues(x, ix) == SlotValues(y, ix);
  }

  /** In the stuck shape the cursor only moves between the two slots. */
  lemma StuckAlternates<S, T>(m: Machine<S, T>, w: SequentialValueTree<S, T>)
    requires Stuck(m, w) && w.shrink == ShrinkTransition(0)
    ensures ShrinkStep(m, w) == Continue(w.(shrink := ShrinkTransition(1)))
    ensures ShrinkStep(m, w.(shrink := ShrinkTransition(1))) == Continue(w)
  {
    assert w.shrinkable[0 := false] == w.shrinkable;
  }

  /** Any run of `simplify` as written from the stuck shape runs out of fuel. */
  lemma StuckSimplifySpins<S, T>(m: Machine<S, T>, w: SequentialValueTree<S, T>, fuel: Fuel)
    requires Stuck(m, w) && w.shrink.ShrinkTransition? && !AllRejected(w)
    ensures SimplifyAsWritten(m, w, fuel) == OutOfFuel
  {
    if fuel.More? && fuel.rest.More? {
      StuckLoopSpins(m, w, fuel.rest.rest);
      assert TrySimplifyAsWritten(m, w, fuel.rest) == OutOfFuel;
    }
  }

  /**
   * From the ready shape the first `simplify` as written moves to the shrink
   * phase, retires slot 0, has slot 1's simplification rejected and calls
   * `simplify` again, whose loop then never returns, whatever the fuel.
   */
  lemma SpinReadySpins<S, T>(m: Machine<S, T>, t: SequentialValueTree<S, T>, fuel: Fuel)
    requires SpinReady(m, t)
    ensures SimplifyAsWritten(m, t, fuel) == OutOfFuel
  {
    var t1 := SpinEntersShrinkPhase(m, t);
    var t2 := SpinRetiresSlot0(m, t, t1);
    var w := SpinRejectsSlot1(m, t, t2);
    if fuel.More? && fuel.rest.More? {
      var loop1 := fuel.rest.rest;
      if loop1.More? {
        var loop2 := loop1.rest;
        if loop2.More? {
          StuckSimplifySpins(m, w, loop2.rest);
        }
        SpinsAfterResimplify(m, t2, w, loop2);
      }
      SpinsAfterContinue(m, t1, t2, loop1);
    }
    SpinsAfterShrinkPhase(m, t, t1, fuel);
  }

  /** From the ready shape the corrected `Simplify` gives up after one lap. */
  lemma SpinReadyGivesUp<S, T>(m: Machine<S, T>, t: SequentialValueTree<S, T>)
    requires SpinReady(m, t)
    ensures !Simplify(m, t).0
  {
    var t1 := SpinEntersShrinkPhase(m, t);
    var t2 := SpinRetiresSlot0(m, t, t1);
    var w := SpinRejectsSlot1(m, t, t2);
    StuckAlternates(m, w);
    var w' := w.(shrink := ShrinkTransition(1));
    assert ShrinkLoop(m, w', 1) == (false, w);
    assert ShrinkLoop(m, w, 2) == (false, w);
    assert Simplify(m, w) == (false, w);
    assert ShrinkLoop(m, t2, 1) == (false, w);
    assert ShrinkLoop(m, t1, 2) == (false, w);
  }

  /** A loop iteration that moves on is followed by another one. */
  lemma SpinsAfterContinue<S, T>(m: Machine<S, T>, t: SequentialValueTree<S, T>, t': SequentialValueTree<S, T>, fuel: Fuel)
    requires Inv(m, t) && t.shrink.ShrinkTransition? && ShrinkStep(m, t) == Continue(t')
    requires fuel.More? ==> ShrinkLoopAsWritten(m, t', fuel.rest) == OutOfFuel
    ensures ShrinkLoopAsWritten(m, t, fuel) == OutOfFuel
  {
  }

  /** A rejected simplification is followed by a fresh call of `simplify`. */
  lemma SpinsAfterResimplify<S, T>(m: Machine<S, T>, t: SequentialValueTree<S, T>, w: SequentialValueTree<S, T>, fuel: Fuel)
    requires Inv(m, t) && t.shrink.ShrinkTransition? && ShrinkStep(m, t) == Resimplify(w)
    requires fuel.More? ==> SimplifyAsWritten(m, w, fuel.rest) == OutOfFuel
    ensures ShrinkLoopAsWritten(m, t, fuel) == OutOfFuel
  {
  }

  /** A `simplify` that finds nothing to delete goes on to the shrink loop. */
  lemma SpinsAfterShrinkPhase<S, T>(m: Machine<S, T>, t: SequentialValueTree<S, T>, t1: SequentialValueTree<S, T>, fuel: Fuel)
    requires Inv(m, t) && !AllRejected(t) && t.shrink.DeleteTransition? && DeleteStep(m, t) == ToShrinkPhase(t1)
    requires fuel.More? && fuel.rest.More? ==> ShrinkLoopAsWritten(m, t1, fuel.rest.rest) == OutOfFuel
    ensures SimplifyAsWritten(m, t, fuel) == OutOfFuel
  {
    if fuel.More? && fuel.rest.More? {
      assert TrySimplifyAsWritten(m, t, fuel.rest) == OutOfFuel;
    }
  }

  /** The generated tree of the concrete run is in the ready shape. */
  lemma SpinTreeReady(t: SequentialValueTree<int, int>)
    requires Inv(NonZeroMachine(), t) && t == Fresh(0, SpinStream(), 2, 1)
    ensures SpinReady(NonZeroMachine(), t)
  {
    assert t.included == [true, true] && t.shrinkable == [true, true] && t.markers == [Current, Current];
    var trial := Simplified(t, 1);
    assert trial.acceptable == [1, 1] && TT.Current(trial.transitions[1]) == 0;
    SpinTrialRejected(trial);
  }

  /** Substituting 0 for the second of two cached 1s does not replay on `NonZeroMachine`. */
  lemma SpinTrialRejected(trial: SequentialValueTree<int, int>)
    requires Valid(trial) && trial.initialState == 0 && trial.included == [true, true]
    requires trial.acceptable == [1, 1] && TT.Current(trial.transitions[1]) == 0
    ensures !CheckAcceptable(NonZeroMachine(), trial, Some(1))
  {
    assert Ones(trial.included) == [0, 1];
    CurrentAtSelects(trial, Some(1));
    assert CurrentAt(trial, Some(1)) == [1, 0];
    assert !Replay(NonZeroMachine(), 0, [1, 0]) by {
      assert [1, 0][1..] == [0];
    }
  }

  /**
   * A concrete run into the spin: sizes `2..=2`, slot 0's tree has no simpler
   * value, slot 1's simplifies from 1 to 0, which the preconditions reject.
   * The first `simplify` as written never returns, however much fuel it is
   * given.
   */
  lemma SimplifySpinsAsWritten(fuel: Fuel)
    ensures NewTree(NonZeroMachine(), 0, 2, 2, 2, SpinStream()).Success?
    ensures var t := NewTree(NonZeroMachine(), 0, 2, 2, 2, SpinStream()).value;
      SimplifyAsWritten(NonZeroMachine(), t, fuel) == OutOfFuel
  {
    var t := SpinGenerated();
    SpinTreeReady(t);
    SpinReadySpins(NonZeroMachine(), t, fuel);
  }

  /** The corrected `Simplify` gives up on the same tree after one lap. */
  lemma SimplifyGivesUpCorrected()
    ensures NewTree(NonZeroMachine(), 0, 2, 2, 2, SpinStream()).Success?
    ensures !Simplify(NonZeroMachine(), NewTree(NonZeroMachine(), 0, 2, 2, 2, SpinStream()).value).0
  {
    var t := SpinGenerated();
    SpinTreeReady(t);
    SpinReadyGivesUp(NonZeroMachine(), t);
  }

  /** An iteration that moves on hands the rest of the fuel to the next iteration. */
  lemma ContinueUnfolds<S, T>(m: Machine<S, T>, t: SequentialValueTree<S, T>, t': SequentialValueTree<S, T>,
                              fuel: Fuel)
    requires Inv(m, t) && t.shrink.ShrinkTransition? && fuel.More? && ShrinkStep(m, t) == Continue(t')
    ensures Inv(m, t') && t'.shrink.ShrinkTransition?
    ensures ShrinkLoopAsWritten(m, t, fuel) == ShrinkLoopAsWritten(m, t', fuel.rest)
  {
  }

  /** When every slot is idle but one is still shrinkable, the loop as written never returns. */
  lemma {:induction false} IdleSpins<S, T>(m: Machine<S, T>, t: SequentialValueTree<S, T>, fuel: Fuel)
    requires Inv(m, t) && t.shrink.ShrinkTransition?
    requires forall i :: 0 <= i < Size(t) ==> Idle(t, i)
    requires Count(t.shrinkable) > 0
    ensures ShrinkLoopAsWritten(m, t, fuel) == OutOfFuel
    decreases fuel
  {
    if fuel.More? {
      var t' := IdleStep(m, t);
      IdleSpins(m, t', fuel.rest);
      ContinueUnfolds(m, t, t', fuel);
    }
  }

  /** The corrected `simplify` returns what the code as written returns with `fuel`, if that returns. */
  ghost predicate SimplifyMatches<S, T>(m: Machine<S, T>, t: SequentialValueTree<S, T>, fuel: Fuel)
    requires Inv(m, t)
  {
    var run := SimplifyAsWritten(m, t, fuel);
    run.Finished? ==> Simplify(m, t) == (run.result, run.tree)
  }

  /** The corrected `try_simplify` returns what the code as written returns with `fuel`, if that returns. */
  ghost predicate TryMatches<S, T>(m: Machine<S, T>, t: SequentialValueTree<S, T>, fuel: Fuel)
    requires Inv(m, t)
  {
    var run := TrySimplifyAsWritten(m, t, fuel);
    run.Finished? ==> TrySimplify(m, t) == (run.result, run.tree)
  }

  /** The corrected shrink loop with `lap` left returns what the loop as written returns with `fuel`, if that returns. */
  ghost predicate LoopMatches<S, T>(m: Machine<S, T>, t: SequentialValueTree<S, T>, lap: nat, fuel: Fuel)
    requires Inv(m, t) && t.shrink.ShrinkTransition?
  {
    var run := ShrinkLoopAsWritten(m, t, fuel);
    run.Finished? ==> ShrinkLoop(m, t, lap) == (run.result, run.tree)
  }

  /**
   * The corrected `simplify` returns what `simplify` as written returns,
   * whenever the code as written returns at all: the lap bound only cuts
   * off runs that would spin.
   */
  lemma {:induction false} SimplifyAgrees<S, T>(m: Machine<S, T>, t: SequentialValueTree<S, T>, fuel: Fuel)
    requires Inv(m, t)
    ensures SimplifyAsWritten(m, t, fuel).Finished? ==>
      Simplify(m, t) == (SimplifyAsWritten(m, t, fuel).result, SimplifyAsWritten(m, t, fuel).tree)
    decreases fuel, 0
  {
    if fuel.More? && !AllRejected(t) {
      TrySimplifyAgrees(m, t, fuel.rest);
      SimplifyDelegates(m, t, fuel);
    }
  }

  /** With some slot still current, both `simplify`s hand over to their `try_simplify`. */
  lemma SimplifyDelegates<S, T>(m: Machine<S, T>, t: SequentialValueTree<S, T>, fuel: Fuel)
    requires Inv(m, t) && fuel.More? && !AllRejected(t) && TryMatches(m, t, fuel.rest)
    ensures SimplifyMatches(m, t, fuel)
  {
    assert SimplifyAsWritten(m, t, fuel) == TrySimplifyAsWritten(m, t, fuel.rest);
  }

  /** The corrected `try_simplify` returns what the code as written returns, whenever that returns. */
  lemma {:induction false} TrySimplifyAgrees<S, T>(m: Machine<S, T>, t: SequentialValueTree<S, T>, fuel: Fuel)
    requires Inv(m, t)
    ensures TryMatches(m, t, fuel)
    decreases fuel, 0
  {
    if fuel.Empty? {
      assert TrySimplifyAsWritten(m, t, fuel) == OutOfFuel;
    } else if t.shrink.ShrinkTransition? {
      ShrinkLoopAgrees(m, t, fuel.rest);
      ShrinkPhaseDelegates(m, t, fuel);
    } else {
      match DeleteStep(m, t)
      case ToShrinkPhase(t') =>
        ShrinkLoopAgrees(m, t', fuel.rest);
        HandOverDelegates(m, t, t', fuel);
      case Deleted(t') =>
        DeletedAgrees(m, t, t', fuel);
      case Undone(t') =>
        TrySimplifyAgrees(m, t', fuel.rest);
        UndoneDelegates(m, t, t', fuel);
    }
  }

  /** In the shrink phase both `try_simplify`s enter their loops with the cursor where it is. */
  lemma ShrinkPhaseDelegates<S, T>(m: Machine<S, T>, t: SequentialValueTree<S, T>, fuel: Fuel)
    requires Inv(m, t) && fuel.More? && t.shrink.ShrinkTransition?
    requires forall lap :: LapIdle(t, lap) ==> LoopMatches(m, t, lap, fuel.rest)
    ensures TryMatches(m, t, fuel)
  {
    assert LapIdle(t, Size(t));
    assert TrySimplifyAsWritten(m, t, fuel) == ShrinkLoopAsWritten(m, t, fuel.rest);
  }

  /** At the minimum size both `try_simplify`s hand over to their loops at slot 0. */
  lemma HandOverDelegates<S, T>(m: Machine<S, T>, t: SequentialValueTree<S, T>, t': SequentialValueTree<S, T>, fuel: Fuel)
    requires Inv(m, t) && fuel.More? && t.shrink.DeleteTransition? && DeleteStep(m, t) == ToShrinkPhase(t')
    requires Inv(m, t') && t'.shrink.ShrinkTransition?
    requires forall lap :: LapIdle(t', lap) ==> LoopMatches(m, t', lap, fuel.rest)
    ensures TryMatches(m, t, fuel)
  {
    assert LapIdle(t', Size(t'));
    assert TrySimplifyAsWritten(m, t, fuel) == ShrinkLoopAsWritten(m, t', fuel.rest);
  }

  /** A committed deletion is returned by both `try_simplify`s. */
  lemma DeletedAgrees<S, T>(m: Machine<S, T>, t: SequentialValueTree<S, T>, t': SequentialValueTree<S, T>, fuel: Fuel)
    requires Inv(m, t) && fuel.More? && t.shrink.DeleteTransition? && DeleteStep(m, t) == Deleted(t')
    ensures TryMatches(m, t, fuel)
  {
    assert TrySimplifyAsWritten(m, t, fuel) == Finished(true, t');
  }

  /** After an undone deletion both `try_simplify`s start over one slot further towards the front. */
  lemma UndoneDelegates<S, T>(m: Machine<S, T>, t: SequentialValueTree<S, T>, t': SequentialValueTree<S, T>, fuel: Fuel)
    requires Inv(m, t) && fuel.More? && t.shrink.DeleteTransition? && DeleteStep(m, t) == Undone(t')
    requires Inv(m, t') && TryMatches(m, t', fuel.rest)
    ensures TryMatches(m, t, fuel)
  {
    assert TrySimplifyAsWritten(m, t, fuel) == TrySimplifyAsWritten(m, t', fuel.rest);
  }

  /**
   * The corrected shrink loop, with the slots behind the cursor idle and
   * any number `lap` of iterations short of giving up, returns what the loop
   * as written returns, whenever that returns.
   */
  lemma {:induction false} ShrinkLoopAgrees<S, T>(m: Machine<S, T>, t: SequentialValueTree<S, T>, fuel: Fuel)
    requires Inv(m, t) && t.shrink.ShrinkTransition?
    ensures forall lap :: LapIdle(t, lap) ==> LoopMatches(m, t, lap, fuel)
    decreases fuel, 2
  {
    forall lap | LapIdle(t, lap)
      ensures LoopMatches(m, t, lap, fuel)
    {
      LapAgrees(m, t, lap, fuel);
    }
  }

  /** `ShrinkLoopAgrees` for one `lap`. */
  lemma {:induction false} LapAgrees<S, T>(m: Machine<S, T>, t: SequentialValueTree<S, T>, lap: nat, fuel: Fuel)
    requires Inv(m, t) && t.shrink.ShrinkTransition? && LapIdle(t, lap)
    ensures LoopMatches(m, t, lap, fuel)
    decreases fuel, 1
  {
    if fuel.Empty? {
      assert ShrinkLoopAsWritten(m, t, fuel) == OutOfFuel;
    } else if lap == 0 {
      LapDone(t);
      LapEndAgrees(m, t, fuel);
    } else {
      match ShrinkStep(m, t)
      case Continue(t') =>
        ContinueAgrees(m, t, t', lap, fuel);
      case Return(b, t') =>
        ReturnAgrees(m, t, b, t', lap, fuel);
      case Resimplify(t') =>
        SimplifyAgrees(m, t', fuel.rest);
        ResimplifyDelegates(m, t, t', lap, fuel);
    }
  }

  /** An iteration that moves on, followed by the rest of the lap in both loops. */
  lemma {:induction false} ContinueAgrees<S, T>(m: Machine<S, T>, t: SequentialValueTree<S, T>, t': SequentialValueTree<S, T>,
                                                lap: nat, fuel: Fuel)
    requires Inv(m, t) && t.shrink.ShrinkTransition? && fuel.More? && ShrinkStep(m, t) == Continue(t')
    requires lap > 0 && LapIdle(t, lap)
    ensures LoopMatches(m, t, lap, fuel)
    decreases fuel, 0
  {
    ContinueUnfolds(m, t, t', fuel);
    LapAdvances(m, t, t', lap);
    ShrinkLoopAgrees(m, t', fuel.rest);
    ContinueDelegates(m, t, t', lap, fuel);
  }

  /**
   * At the end of a lap with every slot idle, the loop as written either
   * gives up just as the corrected one does, since nothing is shrinkable,
   * or never returns.
   */
  lemma LapEndAgrees<S, T>(m: Machine<S, T>, t: SequentialValueTree<S, T>, fuel: Fuel)
    requires Inv(m, t) && t.shrink.ShrinkTransition? && fuel.More?
    requires forall i :: 0 <= i < Size(t) ==> Idle(t, i)
    ensures LoopMatches(m, t, 0, fuel)
  {
    if Count(t.shrinkable) > 0 {
      IdleSpins(m, t, fuel);
    } else {
      assert ShrinkStep(m, t) == Return(false, t);
      assert ShrinkLoopAsWritten(m, t, fuel) == Finished(false, t);
    }
  }

  /** An iteration that moves on is followed by the next one in both loops. */
  lemma ContinueDelegates<S, T>(m: Machine<S, T>, t: SequentialValueTree<S, T>, t': SequentialValueTree<S, T>,
                                lap: nat, fuel: Fuel)
    requires Inv(m, t) && t.shrink.ShrinkTransition? && fuel.More? && lap > 0 && ShrinkStep(m, t) == Continue(t')
    requires Inv(m, t') && t'.shrink.ShrinkTransition? && LoopMatches(m, t', LapRest(lap), fuel.rest)
    ensures LoopMatches(m, t, lap, fuel)
  {
    ContinueUnfolds(m, t, t', fuel);
    CorrectedContinueUnfolds(m, t, t', lap);
  }

  /** An iteration that returns makes both loops return the same. */
  lemma ReturnAgrees<S, T>(m: Machine<S, T>, t: SequentialValueTree<S, T>, b: bool, t': SequentialValueTree<S, T>,
                           lap: nat, fuel: Fuel)
    requires Inv(m, t) && t.shrink.ShrinkTransition? && fuel.More? && lap > 0 && ShrinkStep(m, t) == Return(b, t')
    ensures LoopMatches(m, t, lap, fuel)
  {
    assert ShrinkLoopAsWritten(m, t, fuel) == Finished(b, t');
  }

  /** A rejected simplification makes both loops call their `simplify` again. */
  lemma ResimplifyDelegates<S, T>(m: Machine<S, T>, t: SequentialValueTree<S, T>, t': SequentialValueTree<S, T>,
                                  lap: nat, fuel: Fuel)
    requires Inv(m, t) && t.shrink.ShrinkTransition? && fuel.More? && lap > 0 && ShrinkStep(m, t) == Resimplify(t')
    requires Inv(m, t') && SimplifyMatches(m, t', fuel.rest)
    ensures LoopMatches(m, t, lap, fuel)
  {
    assert ShrinkLoopAsWritten(m, t, fuel) == SimplifyAsWritten(m, t', fuel.rest);
  }
}
