/**
 * `Sequential::new_tree` (proptest/src/strategy/state_machine.rs): generation
 * of a sequence of transitions that the preconditions accept step by step.
 *
 * The test runner's randomness is an input: the size it samples from the
 * configured range is `maxSize`, and `stream` is the sequence of transition
 * value trees the transition strategy hands out, in order. A candidate whose
 * value the preconditions reject is skipped (`reject_local`); running out of
 * candidates stands for the runner giving up after too many local rejections.
 */
module SequentialGen {
  import opened Wrappers
  import opened Acceptance
  import opened Bits
  import TT = TransitionTree
  import opened SequentialTree

  datatype GenError =
    | TooManyLocalRejects  // the runner's budget for `reject_local` ran out
    | SubtractOverflow     // `usize` subtraction below zero, a panic with overflow checks on

  /** The current values of a list of transition trees. */
  function Currents<T>(vs: seq<TT.TransitionTree<T>>): (r: seq<T>)
    requires forall i :: 0 <= i < |vs| ==> TT.Valid(vs[i])
    ensures |r| == |vs|
    ensures forall i :: 0 <= i < |vs| ==> r[i] == TT.Current(vs[i])
  {
    seq(|vs|, i requires 0 <= i < |vs| && TT.Valid(vs[i]) => TT.Current(vs[i]))
  }

  /**
   * The generation loop: draws candidates from `stream` while fewer than `n`
   * have been accepted, keeping a candidate only when the preconditions accept
   * its value in the state `next` has reached, and then advancing the state.
   * On success exactly `n` trees are kept, in the order drawn, and their
   * values replay acceptably from `s`.
   */
  function Generate<S, T>(m: Machine<S, T>, s: S, stream: seq<TT.TransitionTree<T>>, n: nat)
    : (r: Option<seq<TT.TransitionTree<T>>>)
    requires forall i :: 0 <= i < |stream| ==> TT.Valid(stream[i])
    ensures r.Some? ==> |r.value| == n
    ensures r.Some? ==> forall i :: 0 <= i < n ==> r.value[i] in stream
    ensures r.Some? ==> AllStepsAccepted(m, s, Currents(r.value))
    ensures n > |stream| ==> r.None?
    decreases |stream|
  {
    if n == 0 then
      Some([])
    else if |stream| == 0 then
      None
    else
      var tree := stream[0];
      var transition := TT.Current(tree);
      if m.preconditions(s, transition) then
        match Generate(m, m.next(s, transition), stream[1..], n - 1)
        case None => None
        case Some(rest) =>
          KeptInFront(m, s, stream, rest);
          Some([tree] + rest)
      else
        Generate(m, s, stream[1..], n)
  }

  /**
   * Keeping an accepted first candidate in front of trees drawn from the rest
   * of the stream that replay from the next state gives trees drawn from the
   * stream that replay from `s`.
   */
  lemma KeptInFront<S, T>(m: Machine<S, T>, s: S, stream: seq<TT.TransitionTree<T>>, rest: seq<TT.TransitionTree<T>>)
    requires forall i :: 0 <= i < |stream| ==> TT.Valid(stream[i])
    requires |stream| > 0 && m.preconditions(s, TT.Current(stream[0]))
    requires forall i :: 0 <= i < |rest| ==> rest[i] in stream[1..]
    requires AllStepsAccepted(m, m.next(s, TT.Current(stream[0])), Currents(rest))
    ensures forall i :: 0 <= i < |rest| + 1 ==> ([stream[0]] + rest)[i] in stream
    ensures AllStepsAccepted(m, s, Currents([stream[0]] + rest))
  {
    var kept := [stream[0]] + rest;
    assert Currents(kept) == [TT.Current(stream[0])] + Currents(rest);
    AllStepsAcceptedCons(m, s, TT.Current(stream[0]), Currents(rest));
    forall i | 1 <= i < |kept| ensures kept[i] in stream {
      assert kept[i] == rest[i - 1];
    }
  }

  /** The values of the candidates at positions `idx` of the stream, in that order. */
  function Picked<T>(stream: seq<TT.TransitionTree<T>>, idx: seq<nat>): (r: seq<T>)
    requires forall i :: 0 <= i < |stream| ==> TT.Valid(stream[i])
    requires forall k :: 0 <= k < |idx| ==> idx[k] < |stream|
    ensures |r| == |idx|
    ensures forall k :: 0 <= k < |idx| ==> r[k] == TT.Current(stream[idx[k]])
  {
    seq(|idx|, k requires 0 <= k < |idx| => TT.Current(stream[idx[k]]))
  }

  /** The positions one further down the stream. */
  function Shift(idx: seq<nat>): (r: seq<nat>)
    ensures |r| == |idx| && forall k :: 0 <= k < |idx| ==> r[k] == idx[k] + 1
  {
    seq(|idx|, k requires 0 <= k < |idx| => idx[k] + 1)
  }

  /** The first position of the gap before the `k`-th kept candidate: just after the one before it. */
  function GapStart(idx: seq<nat>, k: nat): nat
    requires k <= |idx|
  {
    if k == 0 then 0 else idx[k - 1] + 1
  }

  /** The end of the gap before the `k`-th kept candidate: that candidate, or `upto` after the last one. */
  function GapEnd(idx: seq<nat>, k: nat, upto: nat): nat
    requires k <= |idx|
  {
    if k < |idx| then idx[k] else upto
  }

  /** Positions in range of the stream, each a valid tree. */
  ghost predicate Positions<T>(stream: seq<TT.TransitionTree<T>>, idx: seq<nat>) {
    && (forall i :: 0 <= i < |stream| ==> TT.Valid(stream[i]))
    && (forall k :: 0 <= k < |idx| ==> idx[k] < |stream|)
  }

  /** The state `next` reaches from `s` through the first `k` kept candidates. */
  ghost function KeptState<S, T>(m: Machine<S, T>, s: S, stream: seq<TT.TransitionTree<T>>, idx: seq<nat>, k: nat): S
    requires Positions(stream, idx) && k <= |idx|
  {
    StateAfter(m, s, Picked(stream, idx[..k]))
  }

  /** Candidate `j`, drawn after the first `k` kept ones, is rejected in the state they reached. */
  ghost predicate Skipped<S, T>(m: Machine<S, T>, s: S, stream: seq<TT.TransitionTree<T>>, idx: seq<nat>, k: nat, j: nat)
    requires Positions(stream, idx) && k <= |idx| && j < |stream|
  {
    !m.preconditions(KeptState(m, s, stream, idx, k), TT.Current(stream[j]))
  }

  /** The `k`-th kept candidate is accepted in the state the ones kept before it reached. */
  ghost predicate Kept<S, T>(m: Machine<S, T>, s: S, stream: seq<TT.TransitionTree<T>>, idx: seq<nat>, k: nat)
    requires Positions(stream, idx) && k < |idx|
  {
    m.preconditions(KeptState(m, s, stream, idx, k), TT.Current(stream[idx[k]]))
  }

  /** Position `k` comes before position `l`. */
  ghost predicate Before(idx: seq<nat>, k: nat, l: nat)
    requires k < |idx| && l < |idx|
  {
    idx[k] < idx[l]
  }

  /**
   * `idx` are the positions the generation loop keeps among the first `upto`
   * candidates: increasing, each kept candidate accepted in the state the
   * ones kept before it reached, and every candidate drawn in between
   * rejected in that same state.
   */
  ghost predicate DrawnInOrder<S, T>(m: Machine<S, T>, s: S, stream: seq<TT.TransitionTree<T>>, idx: seq<nat>, upto: nat) {
    && Positions(stream, idx) && upto <= |stream|
    && (forall k :: 0 <= k < |idx| ==> idx[k] < upto)
    && (forall k, l :: 0 <= k < l < |idx| ==> Before(idx, k, l))
    && (forall k :: 0 <= k < |idx| ==> Kept(m, s, stream, idx, k))
    && (forall k, j :: 0 <= k <= |idx| && GapStart(idx, k) <= j < GapEnd(idx, k, upto) ==> Skipped(m, s, stream, idx, k, j))
  }

  /**
   * What `Generate` keeps is the first `n` candidates the loop accepts, in
   * the order drawn: on success the kept trees are the stream's trees at
   * increasing positions `idx`, each accepted in the state the ones before
   * it reached, and every candidate passed over up to the last one kept was
   * rejected in the state reached at that point. On failure the whole stream
   * was drawn that way and fewer than `n` candidates were accepted.
   */
  ghost predicate KeepsFirstAccepted<S, T>(m: Machine<S, T>, s: S, stream: seq<TT.TransitionTree<T>>, n: nat,
                                           idx: seq<nat>, upto: nat)
    requires forall i :: 0 <= i < |stream| ==> TT.Valid(stream[i])
  {
    && DrawnInOrder(m, s, stream, idx, upto)
    && (Generate(m, s, stream, n).Some? ==>
          && |idx| == n && upto == GapStart(idx, n)
          && forall k :: 0 <= k < n ==> Generate(m, s, stream, n).value[k] == stream[idx[k]])
    && (Generate(m, s, stream, n).None? ==> |idx| < n && upto == |stream|)
  }

  /** `Generate` keeps the first `n` accepted candidates of the stream, in draw order. */
  lemma {:induction false} GenerateDrawsInOrder<S, T>(m: Machine<S, T>, s: S, stream: seq<TT.TransitionTree<T>>, n: nat)
    requires forall i :: 0 <= i < |stream| ==> TT.Valid(stream[i])
    ensures exists idx, upto :: KeepsFirstAccepted(m, s, stream, n, idx, upto)
    decreases |stream|, 1
  {
    if n == 0 || |stream| == 0 {
      NothingDrawn(m, s, stream, n);
    } else if m.preconditions(s, TT.Current(stream[0])) {
      KeepHeadDraws(m, s, stream, n);
    } else {
      SkipHeadDraws(m, s, stream, n);
    }
  }

  /** `GenerateDrawsInOrder` when the first candidate is accepted. */
  lemma {:induction false} KeepHeadDraws<S, T>(m: Machine<S, T>, s: S, stream: seq<TT.TransitionTree<T>>, n: nat)
    requires n > 0 && |stream| > 0 && (forall i :: 0 <= i < |stream| ==> TT.Valid(stream[i]))
    requires m.preconditions(s, TT.Current(stream[0]))
    ensures exists idx, upto :: KeepsFirstAccepted(m, s, stream, n, idx, upto)
    decreases |stream|, 0
  {
    GenerateDrawsInOrder(m, m.next(s, TT.Current(stream[0])), stream[1..], n - 1);
    KeepHeadKeeps(m, s, stream, n, m.next(s, TT.Current(stream[0])), n - 1);
  }

  /** What generation keeps after an accepted first candidate, given what it keeps from the rest. */
  lemma KeepHeadKeeps<S, T>(m: Machine<S, T>, s: S, stream: seq<TT.TransitionTree<T>>, n: nat, s': S, n': nat)
    requires n > 0 && |stream| > 0 && (forall i :: 0 <= i < |stream| ==> TT.Valid(stream[i]))
    requires m.preconditions(s, TT.Current(stream[0])) && s' == m.next(s, TT.Current(stream[0])) && n' == n - 1
    requires exists idx', upto' :: KeepsFirstAccepted(m, s', stream[1..], n', idx', upto')
    ensures exists idx, upto :: KeepsFirstAccepted(m, s, stream, n, idx, upto)
  {
    var idx', upto' :| KeepsFirstAccepted(m, s', stream[1..], n', idx', upto');
    KeepHeadGenerates(m, s, stream, n, idx', upto');
  }

  /** `GenerateDrawsInOrder` when the first candidate is rejected. */
  lemma {:induction false} SkipHeadDraws<S, T>(m: Machine<S, T>, s: S, stream: seq<TT.TransitionTree<T>>, n: nat)
    requires n > 0 && |stream| > 0 && (forall i :: 0 <= i < |stream| ==> TT.Valid(stream[i]))
    requires !m.preconditions(s, TT.Current(stream[0]))
    ensures exists idx, upto :: KeepsFirstAccepted(m, s, stream, n, idx, upto)
    decreases |stream|, 0
  {
    GenerateDrawsInOrder(m, s, stream[1..], n);
    var idx', upto' :| KeepsFirstAccepted(m, s, stream[1..], n, idx', upto');
    SkipHeadGenerates(m, s, stream, n, idx', upto');
  }

  /** With nothing left to keep, or nothing left to draw, no position is kept. */
  lemma NothingDrawn<S, T>(m: Machine<S, T>, s: S, stream: seq<TT.TransitionTree<T>>, n: nat)
    requires forall i :: 0 <= i < |stream| ==> TT.Valid(stream[i])
    requires n == 0 || |stream| == 0
    ensures KeepsFirstAccepted(m, s, stream, n, [], 0)
  {
    assert DrawnInOrder(m, s, stream, [], 0);
  }

  /** What `Generate` returns after keeping an accepted first candidate. */
  lemma KeepHeadGenerates<S, T>(m: Machine<S, T>, s: S, stream: seq<TT.TransitionTree<T>>, n: nat, idx': seq<nat>, upto': nat)
    requires n > 0 && |stream| > 0 && (forall i :: 0 <= i < |stream| ==> TT.Valid(stream[i]))
    requires m.preconditions(s, TT.Current(stream[0]))
    requires KeepsFirstAccepted(m, m.next(s, TT.Current(stream[0])), stream[1..], n - 1, idx', upto')
    ensures KeepsFirstAccepted(m, s, stream, n, [0] + Shift(idx'), upto' + 1)
  {
    KeepHead(m, s, stream, idx', upto');
    var g := Generate(m, m.next(s, TT.Current(stream[0])), stream[1..], n - 1);
    if g.Some? {
      assert Generate(m, s, stream, n) == Some([stream[0]] + g.value);
      KeptInOrder(stream, g.value, idx');
    } else {
      assert Generate(m, s, stream, n).None?;
    }
  }

  /** The trees kept from the rest of the stream, behind its head, sit at the shifted positions. */
  lemma KeptInOrder<T>(stream: seq<TT.TransitionTree<T>>, kept': seq<TT.TransitionTree<T>>, idx': seq<nat>)
    requires |stream| > 0 && |kept'| == |idx'|
    requires forall k :: 0 <= k < |idx'| ==> idx'[k] < |stream| - 1 && kept'[k] == stream[1..][idx'[k]]
    ensures forall k :: 0 <= k < |idx'| + 1 ==> ([stream[0]] + kept')[k] == stream[([0] + Shift(idx'))[k]]
  {
    var kept, idx := [stream[0]] + kept', [0] + Shift(idx');
    forall k | 0 <= k < |idx'| + 1 ensures kept[k] == stream[idx[k]] {
      if k > 0 {
        assert kept[k] == kept'[k - 1] == stream[1..][idx'[k - 1]];
      }
    }
  }

  /** What `Generate` returns after passing over a rejected first candidate. */
  lemma SkipHeadGenerates<S, T>(m: Machine<S, T>, s: S, stream: seq<TT.TransitionTree<T>>, n: nat, idx': seq<nat>, upto': nat)
    requires n > 0 && |stream| > 0 && (forall i :: 0 <= i < |stream| ==> TT.Valid(stream[i]))
    requires !m.preconditions(s, TT.Current(stream[0]))
    requires KeepsFirstAccepted(m, s, stream[1..], n, idx', upto')
    ensures KeepsFirstAccepted(m, s, stream, n, Shift(idx'), upto' + 1)
  {
    SkipHead(m, s, stream, idx', upto');
    assert Generate(m, s, stream, n) == Generate(m, s, stream[1..], n);
    var g := Generate(m, s, stream[1..], n);
    if g.Some? {
      forall k | 0 <= k < n ensures g.value[k] == stream[Shift(idx')[k]] {
        assert g.value[k] == stream[1..][idx'[k]];
      }
    }
  }

  /** The state after `k + 1` kept candidates, the first being the stream's head. */
  lemma KeepHeadState<S, T>(m: Machine<S, T>, s: S, stream: seq<TT.TransitionTree<T>>, idx': seq<nat>, k: nat)
    requires |stream| > 0 && (forall i :: 0 <= i < |stream| ==> TT.Valid(stream[i]))
    requires Positions(stream[1..], idx') && k <= |idx'|
    ensures Positions(stream, [0] + Shift(idx'))
    ensures KeptState(m, s, stream, [0] + Shift(idx'), k + 1)
            == KeptState(m, m.next(s, TT.Current(stream[0])), stream[1..], idx', k)
  {
    var idx, rest := [0] + Shift(idx'), stream[1..];
    assert Positions(stream, idx);
    assert Picked(stream, idx[..k + 1]) == [TT.Current(stream[0])] + Picked(rest, idx'[..k]);
    StateAfterCons(m, s, TT.Current(stream[0]), Picked(rest, idx'[..k]));
  }

  /** Keeping an accepted first candidate in front of what is kept from the rest. */
  lemma KeepHead<S, T>(m: Machine<S, T>, s: S, stream: seq<TT.TransitionTree<T>>, idx': seq<nat>, upto': nat)
    requires |stream| > 0 && (forall i :: 0 <= i < |stream| ==> TT.Valid(stream[i]))
    requires m.preconditions(s, TT.Current(stream[0]))
    requires DrawnInOrder(m, m.next(s, TT.Current(stream[0])), stream[1..], idx', upto')
    ensures DrawnInOrder(m, s, stream, [0] + Shift(idx'), upto' + 1)
  {
    var s', rest := m.next(s, TT.Current(stream[0])), stream[1..];
    var idx, upto := [0] + Shift(idx'), upto' + 1;
    assert Positions(stream, idx);
    assert KeptState(m, s, stream, idx, 0) == s by {
      assert idx[..0] == [];
    }
    forall k | 0 <= k <= |idx'|
      ensures KeptState(m, s, stream, idx, k + 1) == KeptState(m, s', rest, idx', k)
    {
      KeepHeadState(m, s, stream, idx', k);
    }
    forall k | 0 <= k < |idx|
      ensures Kept(m, s, stream, idx, k)
    {
      if k > 0 {
        assert stream[idx[k]] == rest[idx'[k - 1]];
        assert Kept(m, s', rest, idx', k - 1);
      }
    }
    forall k, l | 0 <= k < l < |idx|
      ensures Before(idx, k, l)
    {
      if k > 0 {
        assert Before(idx', k - 1, l - 1);
      }
    }
    forall k, j | 0 <= k <= |idx| && GapStart(idx, k) <= j < GapEnd(idx, k, upto)
      ensures Skipped(m, s, stream, idx, k, j)
    {
      assert k > 0;
      assert GapStart(idx, k) == GapStart(idx', k - 1) + 1;
      assert GapEnd(idx, k, upto) == GapEnd(idx', k - 1, upto') + 1;
      assert Skipped(m, s', rest, idx', k - 1, j - 1);
    }
  }

  /** Passing over a rejected first candidate in front of what is kept from the rest. */
  lemma SkipHead<S, T>(m: Machine<S, T>, s: S, stream: seq<TT.TransitionTree<T>>, idx': seq<nat>, upto': nat)
    requires |stream| > 0 && (forall i :: 0 <= i < |stream| ==> TT.Valid(stream[i]))
    requires !m.preconditions(s, TT.Current(stream[0]))
    requires DrawnInOrder(m, s, stream[1..], idx', upto')
    ensures DrawnInOrder(m, s, stream, Shift(idx'), upto' + 1)
  {
    var rest := stream[1..];
    var idx, upto := Shift(idx'), upto' + 1;
    assert Positions(stream, idx);
    forall k | 0 <= k <= |idx'|
      ensures KeptState(m, s, stream, idx, k) == KeptState(m, s, rest, idx', k)
    {
      assert Picked(stream, idx[..k]) == Picked(rest, idx'[..k]);
    }
    forall k | 0 <= k < |idx|
      ensures Kept(m, s, stream, idx, k)
    {
      assert stream[idx[k]] == rest[idx'[k]];
      assert Kept(m, s, rest, idx', k);
    }
    forall k, l | 0 <= k < l < |idx|
      ensures Before(idx, k, l)
    {
      assert Before(idx', k, l);
    }
    forall k, j | 0 <= k <= |idx| && GapStart(idx, k) <= j < GapEnd(idx, k, upto)
      ensures Skipped(m, s, stream, idx, k, j)
    {
      if j == 0 {
        assert idx[..0] == [];
      } else {
        assert GapStart(idx', k) <= j - 1 < GapEnd(idx', k, upto');
        assert Skipped(m, s, rest, idx', k, j - 1);
      }
    }
  }

  /** A freshly generated tree: every slot included, shrinkable and current. */
  function Fresh<S, T>(initialState: S, trees: seq<TT.TransitionTree<T>>, minSize: nat, maxIx: nat)
    : (t: SequentialValueTree<S, T>)
    requires forall i :: 0 <= i < |trees| ==> TT.Valid(trees[i])
    requires maxIx == if |trees| == 0 then 0 else |trees| - 1
    ensures Valid(t) && Size(t) == |trees|
    ensures forall i :: 0 <= i < |trees| ==> t.included[i] && t.shrinkable[i] && t.markers[i] == Current
    ensures Count(t.included) == Count(t.shrinkable) == |trees|
  {
    SequentialValueTree(
      initialState,
      trees,
      Saturated(|trees|),
      Saturated(|trees|),
      seq(|trees|, i => Current),
      Currents(trees),
      minSize,
      maxIx,
      DeleteTransition(maxIx),
      None)
  }

  /** A fresh tree whose values replay acceptably satisfies the shrinking invariant. */
  lemma FreshInv<S, T>(m: Machine<S, T>, initialState: S, trees: seq<TT.TransitionTree<T>>, minSize: nat, maxIx: nat)
    requires forall i :: 0 <= i < |trees| ==> TT.Valid(trees[i])
    requires maxIx == if |trees| == 0 then 0 else |trees| - 1
    requires minSize <= |trees|
    requires AllStepsAccepted(m, initialState, Currents(trees))
    ensures Inv(m, Fresh(initialState, trees, minSize, maxIx))
  {
    var t := Fresh(initialState, trees, minSize, maxIx);
    FilterAll(t.included, SlotValues(t, None));
    assert SlotValues(t, None) == t.acceptable;
  }

  /**
   * `new_tree`, for a size `maxSize` sampled from the inclusive range
   * `[start, end]`. It fails only when the stream cannot supply `maxSize`
   * acceptable transitions. Otherwise the tree has exactly `maxSize` slots,
   * each accepted by the preconditions in the state reached by the slots
   * before it; both bitsets are saturated, every marker is `Current`, the
   * cursor is on the last slot's deletion and no move is remembered. The last
   * index is saturated at 0 for an empty tree.
   */
  function NewTree<S, T>(m: Machine<S, T>, initialState: S, start: nat, end: nat, maxSize: nat,
                         stream: seq<TT.TransitionTree<T>>)
    : (r: Result<SequentialValueTree<S, T>, GenError>)
    requires start <= maxSize <= end
    requires forall i :: 0 <= i < |stream| ==> TT.Valid(stream[i])
    ensures r.Failure? <==> Generate(m, initialState, stream, maxSize).None?
    ensures r.Failure? ==> r.error == TooManyLocalRejects
    ensures r.Success? ==> var g := Generate(m, initialState, stream, maxSize); g.Some? && r.value.transitions == g.value
    ensures r.Success? ==> var t := r.value;
      && Inv(m, t)
      && Size(t) == maxSize && t.minSize == start
      && t.initialState == initialState
      && AllStepsAccepted(m, initialState, t.acceptable)
      && (forall i :: 0 <= i < maxSize ==> t.included[i] && t.shrinkable[i] && t.markers[i] == Current)
      && (forall i :: 0 <= i < maxSize ==> t.acceptable[i] == TT.Current(t.transitions[i]))
      && Count(t.included) == Count(t.shrinkable) == maxSize
      && t.shrink == DeleteTransition(if maxSize == 0 then 0 else maxSize - 1)
      && t.prevShrink == None
  {
    match Generate(m, initialState, stream, maxSize)
    case None => Failure(TooManyLocalRejects)
    case Some(trees) =>
      var maxIx := if maxSize == 0 then 0 else maxSize - 1;
      FreshInv(m, initialState, trees, start, maxIx);
      Success(Fresh(initialState, trees, start, maxIx))
  }
}
