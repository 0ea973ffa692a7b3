/**
 * The shrink controller of `SequentialValueTree`
 * (proptest/src/strategy/state_machine.rs): `simplify`, with its delete
 * phase, shrink phase and rotation search, and `complicate`. Each operation
 * returns whether it changed the candidate together with the new tree, in
 * place of `&mut self`.
 */
module SequentialShrink {
  import opened Wrappers
  import opened Acceptance
  import opened Bits
  import TT = TransitionTree
  import opened SequentialTree

  /** What one visit of the delete branch of `try_simplify` ends in. */
  datatype DeleteOutcome<S, T> =
    | ToShrinkPhase(tree: SequentialValueTree<S, T>)  // no deletion allowed at `minSize`
    | Deleted(tree: SequentialValueTree<S, T>)        // the deletion replayed and is committed
    | Undone(tree: SequentialValueTree<S, T>)         // the deletion did not replay and was undone

  /** The cursor after trying to delete slot `ix`. */
  function AfterDelete(ix: nat): Shrink {
    if ix == 0 then ShrinkTransition(0) else DeleteTransition(ix - 1)
  }

  /**
   * The delete branch of `try_simplify`. At `minSize` included slots it
   * deletes nothing and moves the cursor to the shrink phase. Otherwise it
   * excludes the cursor's slot and replays: if that is acceptable the deletion
   * is committed (the slot also leaves the shrinkable set and becomes the
   * remembered move); if not, the slot is included again and no move is
   * remembered. Either way the cursor moves one slot towards the front.
   */
  function DeleteStep<S, T>(m: Machine<S, T>, t: SequentialValueTree<S, T>): (r: DeleteOutcome<S, T>)
    requires Inv(m, t) && t.shrink.DeleteTransition?
    ensures Inv(m, r.tree)
    ensures r.tree.initialState == t.initialState && r.tree.minSize == t.minSize
    ensures r.tree.transitions == t.transitions && r.tree.markers == t.markers
    ensures r.tree.acceptable == t.acceptable
    ensures r.ToShrinkPhase? <==> Count(t.included) == t.minSize
    ensures r.ToShrinkPhase? ==> r.tree == t.(shrink := ShrinkTransition(0))
    ensures r.Deleted? ==> var ix := t.shrink.ix;
      && Count(r.tree.included) == Count(t.included) - 1
      && r.tree.included == t.included[ix := false]
      && r.tree.shrinkable == t.shrinkable[ix := false]
      && r.tree.prevShrink == Some(DeleteTransition(ix))
      && r.tree.shrink == AfterDelete(ix)
    ensures r.Undone? ==> var ix := t.shrink.ix;
      && !CheckAcceptable(m, t.(included := t.included[ix := false]), None)
      && r.tree == t.(shrink := AfterDelete(ix), prevShrink := None)
  {
    if Count(t.included) == t.minSize then
      var t' := t.(shrink := ShrinkTransition(0));
      InvKeptBySameCandidate(m, t, t');
      ToShrinkPhase(t')
    else
      var ix := t.shrink.ix;
      var trial := t.(included := t.included[ix := false],
                      prevShrink := Some(t.shrink),
                      shrink := AfterDelete(ix));
      if !CheckAcceptable(m, trial, None) then
        UndoneDeleteInv(m, t, trial);
        Undone(t.(shrink := AfterDelete(ix), prevShrink := None))
      else
        CommittedDeleteInv(m, t, trial);
        Deleted(trial.(shrinkable := t.shrinkable[ix := false]))
  }

  /** A deletion that does not replay, undone, leaves a tree that keeps the invariant. */
  lemma UndoneDeleteInv<S, T>(m: Machine<S, T>, t: SequentialValueTree<S, T>, trial: SequentialValueTree<S, T>)
    requires Inv(m, t) && t.shrink.DeleteTransition? && Count(t.included) > t.minSize
    requires trial == t.(included := t.included[t.shrink.ix := false],
                         prevShrink := Some(t.shrink), shrink := AfterDelete(t.shrink.ix))
    requires !CheckAcceptable(m, trial, None)
    ensures !CheckAcceptable(m, t.(included := t.included[t.shrink.ix := false]), None)
    ensures Inv(m, t.(shrink := AfterDelete(t.shrink.ix), prevShrink := None))
  {
    var ix := t.shrink.ix;
    CurrentDependsOnCache(m, trial, t.(included := t.included[ix := false]));
    CurrentDependsOnCache(m, t.(shrink := AfterDelete(ix), prevShrink := None), t);
  }

  /** A deletion that replays, committed, leaves a tree that keeps the invariant. */
  lemma CommittedDeleteInv<S, T>(m: Machine<S, T>, t: SequentialValueTree<S, T>, trial: SequentialValueTree<S, T>)
    requires Inv(m, t) && t.shrink.DeleteTransition? && Count(t.included) > t.minSize
    requires trial == t.(included := t.included[t.shrink.ix := false],
                         prevShrink := Some(t.shrink), shrink := AfterDelete(t.shrink.ix))
    requires CheckAcceptable(m, trial, None)
    ensures Count(trial.included) == Count(t.included) - 1
    ensures Inv(m, trial.(shrinkable := t.shrinkable[t.shrink.ix := false]))
  {
    var ix := t.shrink.ix;
    assert t.included[ix];
    CountUpdate(t.included, ix, false);
    var committed := trial.(shrinkable := t.shrinkable[ix := false]);
    CurrentDependsOnCache(m, committed, trial);
    assert Reinclude(committed, ix).included == t.included;
    CurrentDependsOnCache(m, Reinclude(committed, ix), t);
  }

  /** What one iteration of the shrink loop of `try_simplify` ends in. */
  datatype ShrinkOutcome<S, T> =
    | Continue(tree: SequentialValueTree<S, T>)                // go on with the cursor's slot
    | Return(result: bool, tree: SequentialValueTree<S, T>)    // `try_simplify` returns `result`
    | Resimplify(tree: SequentialValueTree<S, T>)              // rejected; start `simplify` over

  /** Slot `ix`'s tree after one `simplify`, with that move remembered. */
  function Simplified<S, T>(t: SequentialValueTree<S, T>, ix: nat): (r: SequentialValueTree<S, T>)
    requires Valid(t) && ix < Size(t)
    ensures Valid(r)
  {
    t.(transitions := t.transitions[ix := TT.Simplify(t.transitions[ix]).1],
       prevShrink := Some(ShrinkTransition(ix)))
  }

  /**
   * One iteration of the shrink loop of `try_simplify`, at the cursor's slot
   * `ix`. With no shrinkable slot left it gives up. A slot that is excluded
   * or whose simplification was already rejected is passed over. Otherwise
   * the slot's tree is asked to simplify: a refusing tree leaves the
   * shrinkable set; a simpler value is cached (and the move returned as
   * progress) only if the sequence with it substituted replays acceptably,
   * and is otherwise marked `SimplifyRejected` with the cached value kept.
   * Whenever the cursor moves it moves to the next slot, wrapping at `maxIx`.
   */
  function ShrinkStep<S, T>(m: Machine<S, T>, t: SequentialValueTree<S, T>): (r: ShrinkOutcome<S, T>)
    requires Inv(m, t) && t.shrink.ShrinkTransition?
    ensures Inv(m, r.tree)
    ensures r.tree.initialState == t.initialState && r.tree.minSize == t.minSize
    ensures r.tree.maxIx == t.maxIx && r.tree.included == t.included
    ensures Count(t.shrinkable) == 0 <==> r == Return(false, t)
    ensures r.tree.acceptable != t.acceptable ==>
      r.Return? && r.result && CheckAcceptable(m, Simplified(t, t.shrink.ix), Some(t.shrink.ix))
    ensures r.Continue? ==> var ix := t.shrink.ix;
      && r.tree.shrink == NextShrinkTransition(t, ix)
      && r.tree.transitions == t.transitions && r.tree.acceptable == t.acceptable
      && r.tree.markers == t.markers && r.tree.prevShrink == t.prevShrink
      && (r.tree.shrinkable == t.shrinkable || r.tree.shrinkable == t.shrinkable[ix := false])
    ensures Count(t.shrinkable) > 0 && (!t.included[t.shrink.ix] || t.markers[t.shrink.ix] == SimplifyRejected) ==>
      r == Continue(t.(shrink := NextShrinkTransition(t, t.shrink.ix)))
    ensures Count(t.shrinkable) > 0 && t.included[t.shrink.ix] && t.markers[t.shrink.ix] != SimplifyRejected
            && !TT.Simplify(t.transitions[t.shrink.ix]).0 ==>
      r == Continue(t.(shrinkable := t.shrinkable[t.shrink.ix := false],
                       shrink := NextShrinkTransition(t, t.shrink.ix)))
    ensures Count(t.shrinkable) > 0 && t.included[t.shrink.ix] && t.markers[t.shrink.ix] != SimplifyRejected
            && TT.Simplify(t.transitions[t.shrink.ix]).0 ==>
      if CheckAcceptable(m, Simplified(t, t.shrink.ix), Some(t.shrink.ix)) then r.Return? && r.result
      else r.Resimplify?
    ensures r.Return? && r.result ==> var ix := t.shrink.ix;
      && t.included[ix] && t.markers[ix] != SimplifyRejected && TT.Simplify(t.transitions[ix]).0
      && CheckAcceptable(m, Simplified(t, ix), Some(ix))
      && r.tree == CacheSlot(Simplified(t, ix), ix)
    ensures r.Resimplify? ==> var ix := t.shrink.ix;
      && t.included[ix] && t.markers[ix] != SimplifyRejected && TT.Simplify(t.transitions[ix]).0
      && !CheckAcceptable(m, Simplified(t, ix), Some(ix))
      && r.tree == Simplified(t, ix).(markers := t.markers[ix := SimplifyRejected],
                                      shrink := NextShrinkTransition(t, ix))
      && TT.Work(r.tree.transitions) < TT.Work(t.transitions)
  {
    var ix := t.shrink.ix;
    if Count(t.shrinkable) == 0 then
      Return(false, t)
    else if !t.included[ix] || t.markers[ix] == SimplifyRejected then
      var t' := t.(shrink := NextShrinkTransition(t, ix));
      InvKeptBySameCandidate(m, t, t');
      Continue(t')
    else if TT.Simplify(t.transitions[ix]).0 then
      var trial := Simplified(t, ix);
      if CheckAcceptable(m, trial, Some(ix)) then
        Return(true, CacheSlot(trial, ix))
      else
        var t' := trial.(markers := t.markers[ix := SimplifyRejected], shrink := NextShrinkTransition(t, ix));
        InvKeptBySameCandidate(m, t, t');
        TT.WorkDecreases(t.transitions, ix, TT.Simplify(t.transitions[ix]).1);
        Resimplify(t')
    else
      var t' := t.(shrinkable := t.shrinkable[ix := false], shrink := NextShrinkTransition(t, ix));
      InvKeptBySameCandidate(m, t, t');
      Continue(t')
  }

  /** The slot `j` steps after `start`, counting forwards and wrapping at `n`. */
  function Rotate(start: nat, j: nat, n: nat): (c: nat)
    requires start < n && j < n
    ensures c < n
  {
    if start + j < n then start + j else start + j - n
  }

  /** Slot `i` is included and substituting its live tree value replays acceptably. */
  predicate Substitutable<S, T>(m: Machine<S, T>, t: SequentialValueTree<S, T>, i: nat)
    requires Valid(t) && i < Size(t)
  {
    t.included[i] && CheckAcceptable(m, t, Some(i))
  }

  /**
   * Of the slots visited from the `j`-th visit on, starting at `start`, the
   * one visited `k`-th is the first that is substitutable.
   */
  ghost predicate FirstSubstitutable<S, T>(m: Machine<S, T>, t: SequentialValueTree<S, T>, start: nat, j: nat, k: nat)
    requires Valid(t) && start < Size(t) && k < Size(t)
  {
    && Substitutable(m, t, Rotate(start, k, Size(t)))
    && forall k' :: j <= k' < k ==> !Substitutable(m, t, Rotate(start, k', Size(t)))
  }

  /**
   * The loop of `try_to_find_acceptable` from its `j`-th visit on, at slot
   * `cur`: caches the first substitutable slot in visiting order and reports
   * success, or stops with the tree unchanged when the cursor comes back
   * round to `start`, no slot from the `j`-th visit on being substitutable.
   */
  function Scan<S, T>(m: Machine<S, T>, t: SequentialValueTree<S, T>, start: nat, cur: nat, j: nat)
    : (r: (bool, SequentialValueTree<S, T>))
    requires Inv(m, t) && t.prevShrink.Some? && t.prevShrink.value.ShrinkTransition?
    requires start < Size(t) && j < Size(t) && cur == Rotate(start, j, Size(t))
    ensures Inv(m, r.1)
    ensures r.0 ==> exists k :: j <= k < Size(t) && FirstSubstitutable(m, t, start, j, k)
                                 && r.1 == CacheSlot(t, Rotate(start, k, Size(t)))
    ensures !r.0 ==> r.1 == t
    ensures !r.0 ==> forall k :: j <= k < Size(t) ==> !Substitutable(m, t, Rotate(start, k, Size(t)))
    decreases Size(t) - j
  {
    if t.included[cur] && CheckAcceptable(m, t, Some(cur)) then
      assert FirstSubstitutable(m, t, start, j, j);
      (true, CacheSlot(t, cur))
    else
      var next := if cur == t.maxIx then 0 else cur + 1;
      NextVisit(Size(t), start, cur, j, next);
      if next == start then
        (false, t)
      else
        var r := Scan(m, t, start, next, j + 1);
        ScanFromEarlier(m, t, start, j, r);
        r
  }

  /** The slot visited after `cur` is `start` again exactly when `cur` was the last visit. */
  lemma NextVisit(n: nat, start: nat, cur: nat, j: nat, next: nat)
    requires start < n && j < n && cur == Rotate(start, j, n)
    requires next == if cur == n - 1 then 0 else cur + 1
    ensures next == start <==> j + 1 == n
    ensures j + 1 < n ==> next == Rotate(start, j + 1, n)
  {
  }

  /**
   * What the search reports from the `(j + 1)`-th visit on, it also reports
   * from the `j`-th visit on when the `j`-th visited slot is not substitutable.
   */
  lemma ScanFromEarlier<S, T>(m: Machine<S, T>, t: SequentialValueTree<S, T>, start: nat, j: nat,
                              r: (bool, SequentialValueTree<S, T>))
    requires Valid(t) && start < Size(t) && j + 1 < Size(t)
    requires !Substitutable(m, t, Rotate(start, j, Size(t)))
    requires r.0 ==> exists k :: j + 1 <= k < Size(t) && FirstSubstitutable(m, t, start, j + 1, k)
                                 && r.1 == CacheSlot(t, Rotate(start, k, Size(t)))
    requires !r.0 ==> forall k :: j + 1 <= k < Size(t) ==> !Substitutable(m, t, Rotate(start, k, Size(t)))
    ensures r.0 ==> exists k :: j <= k < Size(t) && FirstSubstitutable(m, t, start, j, k)
                                && r.1 == CacheSlot(t, Rotate(start, k, Size(t)))
    ensures !r.0 ==> forall k :: j <= k < Size(t) ==> !Substitutable(m, t, Rotate(start, k, Size(t)))
  {
    if r.0 {
      var k :| j + 1 <= k < Size(t) && FirstSubstitutable(m, t, start, j + 1, k)
               && r.1 == CacheSlot(t, Rotate(start, k, Size(t)));
      assert FirstSubstitutable(m, t, start, j, k);
    }
  }

  /**
   * `try_to_find_acceptable(ix)`: visits every slot once, starting at `ix`
   * and wrapping at `maxIx`. It succeeds exactly when some included slot's
   * live tree value can be substituted with the sequence still replaying
   * acceptably, and then caches the first such slot in visiting order;
   * otherwise nothing changes.
   */
  function TryToFindAcceptable<S, T>(m: Machine<S, T>, t: SequentialValueTree<S, T>, ix: nat)
    : (r: (bool, SequentialValueTree<S, T>))
    requires Inv(m, t) && t.prevShrink == Some(ShrinkTransition(ix))
    ensures Inv(m, r.1)
    ensures r.0 ==> exists k :: 0 <= k < Size(t) && FirstSubstitutable(m, t, ix, 0, k)
                                && r.1 == CacheSlot(t, Rotate(ix, k, Size(t)))
    ensures !r.0 <==> forall i :: 0 <= i < Size(t) ==> !Substitutable(m, t, i)
    ensures !r.0 ==> r.1 == t
  {
    var r := Scan(m, t, ix, ix, 0);
    if !r.0 then
      assert forall i :: 0 <= i < Size(t) ==> !Substitutable(m, t, i) by {
        forall i | 0 <= i < Size(t)
          ensures !Substitutable(m, t, i)
        {
          var k := if i >= ix then i - ix else i + Size(t) - ix;
          assert Rotate(ix, k, Size(t)) == i;
        }
      }
      r
    else
      r
  }

  /** Orders the delete phase above the shrink phase, and earlier deletions above later ones. */
  function DeleteRank(c: Shrink): nat {
    if c.DeleteTransition? then c.ix + 2 else 1
  }

  /**
   * `simplify`: when every included slot is marked rejected, the rotation
   * search from the last shrunk slot (or `false` if the last move was not a
   * shrink); otherwise `try_simplify`. Whatever it returns, `current()` still
   * replays acceptably and at least `minSize` slots stay included.
   *
   * This is the corrected controller: its shrink loop gives up after one full
   * lap of the slots without progress, where the code as written can spin
   * (see `SequentialAsWritten`).
   */
  function Simplify<S, T>(m: Machine<S, T>, t: SequentialValueTree<S, T>): (r: (bool, SequentialValueTree<S, T>))
    requires Inv(m, t)
    ensures Inv(m, r.1)
    ensures AllStepsAccepted(m, r.1.initialState, CurrentValue(r.1))
    ensures r.1.initialState == t.initialState && r.1.minSize == t.minSize && r.1.maxIx == t.maxIx
    ensures Size(r.1) == Size(t)
    ensures Count(r.1.included) >= r.1.minSize
    decreases TT.Work(t.transitions), t.maxIx + 3, 0
  {
    var r := if AllRejected(t) then
      match t.prevShrink
      case Some(ShrinkTransition(ix)) => TryToFindAcceptable(m, t, ix)
      case _ => (false, t)
    else
      TrySimplify(m, t);
    r
  }

  /**
   * `try_simplify`: the delete phase, retried one slot further towards the
   * front after each undone deletion, then the shrink loop.
   */
  function TrySimplify<S, T>(m: Machine<S, T>, t: SequentialValueTree<S, T>): (r: (bool, SequentialValueTree<S, T>))
    requires Inv(m, t)
    ensures Inv(m, r.1)
    ensures r.1.initialState == t.initialState && r.1.minSize == t.minSize && r.1.maxIx == t.maxIx
    ensures Size(r.1) == Size(t)
    decreases TT.Work(t.transitions), DeleteRank(t.shrink), 0
  {
    match t.shrink
    case DeleteTransition(_) =>
      (match DeleteStep(m, t)
       case ToShrinkPhase(t') => ShrinkLoop(m, t', Size(t'))
       case Deleted(t') => (true, t')
       case Undone(t') => TrySimplify(m, t'))
    case ShrinkTransition(_) => ShrinkLoop(m, t, Size(t))
  }

  /**
   * The shrink loop of `try_simplify`, with at most `lap` more iterations
   * that make no progress before it gives up.
   */
  function ShrinkLoop<S, T>(m: Machine<S, T>, t: SequentialValueTree<S, T>, lap: nat): (r: (bool, SequentialValueTree<S, T>))
    requires Inv(m, t) && t.shrink.ShrinkTransition?
    ensures Inv(m, r.1)
    ensures r.1.initialState == t.initialState && r.1.minSize == t.minSize && r.1.maxIx == t.maxIx
    ensures Size(r.1) == Size(t)
    decreases TT.Work(t.transitions), 0, lap
  {
    if lap == 0 then
      (false, t)
    else
      match ShrinkStep(m, t)
      case Continue(t') => ShrinkLoop(m, t', LapRest(lap))
      case Return(b, t') => (b, t')
      case Resimplify(t') => Simplify(m, t')
  }

  /** Slot `ix`'s tree after one `complicate`. */
  function Complicated<S, T>(t: SequentialValueTree<S, T>, ix: nat): (r: SequentialValueTree<S, T>)
    requires Valid(t) && ix < Size(t)
    ensures Valid(r)
  {
    t.(transitions := t.transitions[ix := TT.Complicate(t.transitions[ix]).1])
  }

  /**
   * `complicate` after a deletion: the slot goes back into both bitsets and
   * the move is forgotten, so it is undone once. `current()` only grows.
   */
  function UndoDelete<S, T>(m: Machine<S, T>, t: SequentialValueTree<S, T>, ix: nat): (r: SequentialValueTree<S, T>)
    requires Inv(m, t) && t.prevShrink == Some(DeleteTransition(ix))
    ensures Inv(m, r)
    ensures r == t.(included := t.included[ix := true], shrinkable := t.shrinkable[ix := true], prevShrink := None)
    ensures Count(r.included) >= Count(t.included)
  {
    var r := t.(included := t.included[ix := true], shrinkable := t.shrinkable[ix := true], prevShrink := None);
    CountUpdate(t.included, ix, true);
    CurrentDependsOnCache(m, r, Reinclude(t, ix));
    r
  }

  /**
   * `complicate` after a shrink of slot `ix`: the less simple value is cached
   * only if the sequence with it substituted replays acceptably, and the move
   * stays remembered; if the tree refuses, or the value is rejected (the slot
   * is then marked `ComplicateRejected`), the move is forgotten.
   */
  function UndoShrink<S, T>(m: Machine<S, T>, t: SequentialValueTree<S, T>, ix: nat): (r: (bool, SequentialValueTree<S, T>))
    requires Inv(m, t) && t.prevShrink == Some(ShrinkTransition(ix))
    ensures Inv(m, r.1)
    ensures r.1.initialState == t.initialState && r.1.minSize == t.minSize && r.1.maxIx == t.maxIx
    ensures r.0 <==> TT.Complicate(t.transitions[ix]).0 && CheckAcceptable(m, Complicated(t, ix), Some(ix))
    ensures r.0 ==> r.1 == CacheSlot(Complicated(t, ix), ix)
    ensures !r.0 && TT.Complicate(t.transitions[ix]).0 ==>
              r.1 == Complicated(t, ix).(markers := t.markers[ix := ComplicateRejected], prevShrink := None)
    ensures !TT.Complicate(t.transitions[ix]).0 ==> r.1 == t.(prevShrink := None)
  {
    if TT.Complicate(t.transitions[ix]).0 then
      var trial := Complicated(t, ix);
      if CheckAcceptable(m, trial, Some(ix)) then
        (true, CacheSlot(trial, ix))
      else
        var t' := trial.(markers := t.markers[ix := ComplicateRejected], prevShrink := None);
        InvKeptBySameCandidate(m, t, t');
        (false, t')
    else
      var t' := t.(prevShrink := None);
      InvKeptBySameCandidate(m, t, t');
      (false, t')
  }

  /**
   * `complicate`: undoes the remembered move, if there is one. `current()`
   * replays acceptably afterwards.
   */
  function Complicate<S, T>(m: Machine<S, T>, t: SequentialValueTree<S, T>): (r: (bool, SequentialValueTree<S, T>))
    requires Inv(m, t)
    ensures Inv(m, r.1)
    ensures AllStepsAccepted(m, r.1.initialState, CurrentValue(r.1))
    ensures r.1.initialState == t.initialState && r.1.minSize == t.minSize && r.1.maxIx == t.maxIx
    ensures t.prevShrink.None? ==> r == (false, t)
    ensures t.prevShrink.Some? && t.prevShrink.value.DeleteTransition? ==>
              r == (true, UndoDelete(m, t, t.prevShrink.value.ix))
    ensures t.prevShrink.Some? && t.prevShrink.value.ShrinkTransition? ==>
              r == UndoShrink(m, t, t.prevShrink.value.ix)
  {
    var r := (match t.prevShrink
      case None => (false, t)
      case Some(DeleteTransition(ix)) => (true, UndoDelete(m, t, ix))
      case Some(ShrinkTransition(ix)) => UndoShrink(m, t, ix));
    r
  }

  /** Undoing a deletion is one-shot: a second `complicate` right after it reports nothing. */
  lemma ComplicateDeleteOnce<S, T>(m: Machine<S, T>, t: SequentialValueTree<S, T>)
    requires Inv(m, t) && t.prevShrink.Some? && t.prevShrink.value.DeleteTransition?
    ensures Complicate(m, t).0
    ensures !Complicate(m, Complicate(m, t).1).0
  {
  }

  /**
   * A move that keeps the inclusion bits and the cached transitions, and
   * remembers no deletion other than the one already remembered, keeps the
   * invariant.
   */
  lemma InvKeptBySameCandidate<S, T>(m: Machine<S, T>, t: SequentialValueTree<S, T>, t': SequentialValueTree<S, T>)
    requires Inv(m, t) && Valid(t')
    requires t'.included == t.included && t'.acceptable == t.acceptable
    requires t'.initialState == t.initialState && t'.minSize == t.minSize
    requires t'.prevShrink == t.prevShrink || t'.prevShrink.None? || t'.prevShrink.value.ShrinkTransition?
    requires t'.shrink.DeleteTransition? ==> forall j :: 0 <= j <= t'.shrink.ix && j < Size(t') ==> t'.included[j]
    ensures Inv(m, t')
  {
    CurrentDependsOnCache(m, t', t);
    if t.prevShrink.Some? && t.prevShrink.value.DeleteTransition? {
      CurrentDependsOnCache(m, Reinclude(t', t.prevShrink.value.ix), Reinclude(t, t.prevShrink.value.ix));
    }
  }

  /**
   * Slot `i` is one the shrink loop only passes over: excluded, marked
   * `SimplifyRejected`, or refusing to simplify and already out of the
   * shrinkable set.
   */
  ghost predicate Idle<S, T>(t: SequentialValueTree<S, T>, i: nat)
    requires Valid(t) && i < Size(t)
  {
    !t.included[i] || t.markers[i] == SimplifyRejected || (!TT.Simplify(t.transitions[i]).0 && !t.shrinkable[i])
  }

  /**
   * With `lap` iterations left in the corrected loop's lap, the slots it has
   * visited in this lap, the `Size(t) - lap` before the cursor, are idle.
   */
  ghost predicate LapIdle<S, T>(t: SequentialValueTree<S, T>, lap: nat)
    requires Valid(t)
  {
    && lap <= Size(t)
    && forall j :: lap <= j < Size(t) ==> Idle(t, Rotate(t.shrink.ix, j, Size(t)))
  }

  /** An iteration that moves on leaves the visited slot idle and keeps idle slots idle. */
  lemma ContinueLeavesIdle<S, T>(m: Machine<S, T>, t: SequentialValueTree<S, T>, t': SequentialValueTree<S, T>)
    requires Inv(m, t) && t.shrink.ShrinkTransition? && ShrinkStep(m, t) == Continue(t')
    ensures Valid(t') && Size(t') == Size(t) && t'.shrink == NextShrinkTransition(t, t.shrink.ix)
    ensures Idle(t', t.shrink.ix)
    ensures forall i :: 0 <= i < Size(t) && Idle(t, i) ==> Idle(t', i)
  {
  }

  /** When every slot is idle, an iteration of the shrink loop only moves the cursor on. */
  lemma IdleStep<S, T>(m: Machine<S, T>, t: SequentialValueTree<S, T>) returns (t': SequentialValueTree<S, T>)
    requires Inv(m, t) && t.shrink.ShrinkTransition?
    requires forall i :: 0 <= i < Size(t) ==> Idle(t, i)
    requires Count(t.shrinkable) > 0
    ensures ShrinkStep(m, t) == Continue(t') && t' == t.(shrink := t'.shrink)
    ensures Inv(m, t') && t'.shrink.ShrinkTransition?
    ensures forall i :: 0 <= i < Size(t') ==> Idle(t', i)
  {
    var ix := t.shrink.ix;
    t' := t.(shrink := NextShrinkTransition(t, ix));
    assert Idle(t, ix);
    if t.included[ix] && t.markers[ix] != SimplifyRejected {
      assert t.shrinkable[ix := false] == t.shrinkable;
    }
    assert ShrinkStep(m, t) == Continue(t');
    ContinueLeavesIdle(m, t, t');
  }

  /** A lap whose every slot turned out idle leaves every slot idle. */
  lemma LapDone<S, T>(t: SequentialValueTree<S, T>)
    requires Valid(t) && LapIdle(t, 0)
    ensures forall i :: 0 <= i < Size(t) ==> Idle(t, i)
  {
    forall i | 0 <= i < Size(t)
      ensures Idle(t, i)
    {
      var ix := t.shrink.ix;
      var k := if i >= ix then i - ix else i + Size(t) - ix;
      assert Rotate(ix, k, Size(t)) == i;
    }
  }

  /** The iterations left in a lap after one more. */
  function LapRest(lap: nat): (r: nat)
    requires lap > 0
    ensures r < lap
  {
    lap - 1
  }

  /** An iteration that moves on, with `lap` left, leaves the rest of the lap with one more idle slot behind the cursor. */
  lemma LapAdvances<S, T>(m: Machine<S, T>, t: SequentialValueTree<S, T>, t': SequentialValueTree<S, T>, lap: nat)
    requires Inv(m, t) && t.shrink.ShrinkTransition? && ShrinkStep(m, t) == Continue(t')
    requires lap > 0 && LapIdle(t, lap)
    ensures Valid(t') && LapIdle(t', LapRest(lap))
  {
    ContinueLeavesIdle(m, t, t');
    var n, ix, ix' := Size(t), t.shrink.ix, t'.shrink.ix;
    forall j | lap - 1 <= j < n
      ensures Idle(t', Rotate(ix', j, n))
    {
      if j < n - 1 {
        assert Rotate(ix', j, n) == Rotate(ix, j + 1, n);
      } else {
        assert Rotate(ix', j, n) == ix;
      }
    }
  }

  /** An iteration that moves on hands the rest of the lap to the next iteration of the corrected loop. */
  lemma CorrectedContinueUnfolds<S, T>(m: Machine<S, T>, t: SequentialValueTree<S, T>, t': SequentialValueTree<S, T>,
                                       lap: nat)
    requires Inv(m, t) && t.shrink.ShrinkTransition? && lap > 0 && ShrinkStep(m, t) == Continue(t')
    ensures Inv(m, t') && t'.shrink.ShrinkTransition?
    ensures ShrinkLoop(m, t, lap) == ShrinkLoop(m, t', LapRest(lap))
  {
  }

  /**
   * A tree on which `simplify` has nothing left to try: either every
   * included slot is marked rejected and, if the last move was a shrink, no
   * slot's live value can be substituted, or some slot is still current, the
   * cursor is in the shrink phase, and no slot is shrinkable or every slot is
   * one the shrink loop only passes over.
   */
  ghost predicate Spent<S, T>(m: Machine<S, T>, t: SequentialValueTree<S, T>)
    requires Inv(m, t)
  {
    if AllRejected(t) then
      t.prevShrink.Some? && t.prevShrink.value.ShrinkTransition? ==>
        forall i :: 0 <= i < Size(t) ==> !Substitutable(m, t, i)
    else t.shrink.ShrinkTransition? && (Count(t.shrinkable) == 0 || forall i :: 0 <= i < Size(t) ==> Idle(t, i))
  }

  /** Once `simplify` returns false, it keeps returning false on the tree it left. */
  lemma SimplifyExhausted<S, T>(m: Machine<S, T>, t: SequentialValueTree<S, T>)
    requires Inv(m, t) && !Simplify(m, t).0
    ensures !Simplify(m, Simplify(m, t).1).0
  {
    SimplifyFalseSpent(m, t);
    SpentGivesUp(m, Simplify(m, t).1);
  }

  /** `simplify` returns false on a spent tree. */
  lemma SpentGivesUp<S, T>(m: Machine<S, T>, t: SequentialValueTree<S, T>)
    requires Inv(m, t) && Spent(m, t)
    ensures !Simplify(m, t).0
  {
    if !AllRejected(t) {
      IdleLoopGivesUp(m, t, Size(t));
      assert Simplify(m, t) == TrySimplify(m, t) == ShrinkLoop(m, t, Size(t));
    }
  }

  /** The shrink loop with nothing shrinkable, or over slots it only passes over, gives up. */
  lemma {:induction false} IdleLoopGivesUp<S, T>(m: Machine<S, T>, t: SequentialValueTree<S, T>, lap: nat)
    requires Inv(m, t) && t.shrink.ShrinkTransition?
    requires Count(t.shrinkable) == 0 || forall i :: 0 <= i < Size(t) ==> Idle(t, i)
    ensures !ShrinkLoop(m, t, lap).0
    decreases lap
  {
    if lap > 0 {
      if Count(t.shrinkable) == 0 {
        assert ShrinkStep(m, t) == Return(false, t);
      } else {
        var t' := IdleStep(m, t);
        IdleLoopGivesUp(m, t', LapRest(lap));
        CorrectedContinueUnfolds(m, t, t', lap);
      }
    }
  }

  /** Trees with the same slots, inclusion bits and markers agree on `all_rejected`. */
  lemma RejectedAlike<S, T>(t: SequentialValueTree<S, T>, t': SequentialValueTree<S, T>)
    requires Valid(t) && Valid(t') && Size(t') == Size(t)
    requires t'.included == t.included && t'.markers == t.markers
    ensures AllRejected(t') == AllRejected(t)
  {
  }

  /** When `simplify` returns false, the tree it leaves is spent. */
  lemma {:induction false} SimplifyFalseSpent<S, T>(m: Machine<S, T>, t: SequentialValueTree<S, T>)
    requires Inv(m, t) && !Simplify(m, t).0
    ensures Spent(m, Simplify(m, t).1)
    decreases TT.Work(t.transitions), t.maxIx + 3, 0
  {
    if AllRejected(t) {
      assert Simplify(m, t).1 == t;
    } else {
      TryFalseSpent(m, t);
    }
  }

  /** When `try_simplify` returns false, the tree it leaves is spent. */
  lemma {:induction false} TryFalseSpent<S, T>(m: Machine<S, T>, t: SequentialValueTree<S, T>)
    requires Inv(m, t) && !AllRejected(t) && !TrySimplify(m, t).0
    ensures Spent(m, TrySimplify(m, t).1)
    decreases TT.Work(t.transitions), DeleteRank(t.shrink), 0
  {
    match t.shrink
    case DeleteTransition(_) =>
      match DeleteStep(m, t) {
        case ToShrinkPhase(t') =>
          RejectedAlike(t, t');
          LoopFalseSpent(m, t', Size(t'));
        case Deleted(t') =>
          assert false;
        case Undone(t') =>
          RejectedAlike(t, t');
          TryFalseSpent(m, t');
      }
    case ShrinkTransition(_) =>
      LoopFalseSpent(m, t, Size(t));
  }

  /**
   * When the shrink loop, with the slots it already visited in this lap
   * idle, returns false, the tree it leaves is spent.
   */
  lemma {:induction false} LoopFalseSpent<S, T>(m: Machine<S, T>, t: SequentialValueTree<S, T>, lap: nat)
    requires Inv(m, t) && t.shrink.ShrinkTransition? && !AllRejected(t)
    requires LapIdle(t, lap) && !ShrinkLoop(m, t, lap).0
    ensures Spent(m, ShrinkLoop(m, t, lap).1)
    decreases TT.Work(t.transitions), 0, lap
  {
    if lap == 0 {
      LapEndSpent(m, t);
    } else {
      match ShrinkStep(m, t)
      case Continue(t') =>
        ContinueHandsOver(m, t, t', lap);
        LoopFalseSpent(m, t', LapRest(lap));
      case Return(b, t') =>
        ReturnSpent(m, t, b, t', lap);
      case Resimplify(t') =>
        ResimplifyHandsOver(m, t, t', lap);
        SimplifyFalseSpent(m, t');
    }
  }

  /** At the end of a lap over idle slots, the tree the loop leaves is spent. */
  lemma LapEndSpent<S, T>(m: Machine<S, T>, t: SequentialValueTree<S, T>)
    requires Inv(m, t) && t.shrink.ShrinkTransition? && !AllRejected(t) && LapIdle(t, 0)
    ensures Spent(m, ShrinkLoop(m, t, 0).1)
  {
    LapDone(t);
  }

  /** An iteration that moves on hands the rest of the lap to a tree that is still not all rejected. */
  lemma ContinueHandsOver<S, T>(m: Machine<S, T>, t: SequentialValueTree<S, T>, t': SequentialValueTree<S, T>, lap: nat)
    requires Inv(m, t) && t.shrink.ShrinkTransition? && !AllRejected(t) && ShrinkStep(m, t) == Continue(t')
    requires lap > 0 && LapIdle(t, lap)
    ensures Inv(m, t') && t'.shrink.ShrinkTransition? && !AllRejected(t') && LapIdle(t', LapRest(lap))
    ensures ShrinkLoop(m, t, lap) == ShrinkLoop(m, t', LapRest(lap))
  {
    LapAdvances(m, t, t', lap);
    CorrectedContinueUnfolds(m, t, t', lap);
    RejectedAlike(t, t');
  }

  /** An iteration that makes the loop return false leaves the tree as it is, with nothing shrinkable. */
  lemma ReturnSpent<S, T>(m: Machine<S, T>, t: SequentialValueTree<S, T>, b: bool, t': SequentialValueTree<S, T>, lap: nat)
    requires Inv(m, t) && t.shrink.ShrinkTransition? && !AllRejected(t)
    requires lap > 0 && ShrinkStep(m, t) == Return(b, t') && !ShrinkLoop(m, t, lap).0
    ensures Spent(m, ShrinkLoop(m, t, lap).1)
  {
    assert ShrinkStep(m, t) == Return(false, t);
  }

  /** A rejected simplification hands the loop's result over to `simplify`. */
  lemma ResimplifyHandsOver<S, T>(m: Machine<S, T>, t: SequentialValueTree<S, T>, t': SequentialValueTree<S, T>, lap: nat)
    requires Inv(m, t) && t.shrink.ShrinkTransition? && lap > 0 && ShrinkStep(m, t) == Resimplify(t')
    ensures Inv(m, t') && TT.Work(t'.transitions) < TT.Work(t.transitions)
    ensures ShrinkLoop(m, t, lap) == Simplify(m, t')
  {
  }
}
