/**
 * The value tree of the sequential state-machine strategy
 * (`SequentialValueTree` in proptest/src/strategy/state_machine.rs): one slot
 * per generated transition, the two bitsets over slots, the per-slot marker,
 * the shrink cursor and the remembered last move, together with `current_at`,
 * `check_acceptable` and the invariant every shrinking move preserves.
 *
 * The user's `preconditions` and `next`, which the Rust tree stores as
 * function pointers, are passed alongside the tree as a `Machine`.
 */
module SequentialTree {
  import opened Wrappers
  import opened Acceptance
  import opened Bits
  import TT = TransitionTree

  /** The shrink cursor: the next slot to try to delete or to simplify. */
  datatype Shrink = DeleteTransition(ix: nat) | ShrinkTransition(ix: nat)

  /** Where a slot's cached transition stands relative to its value tree. */
  datatype TransitionState =
    | Current             // the cached transition is the tree's current value
    | SimplifyRejected    // the tree was simplified, but the preconditions rejected it
    | ComplicateRejected  // the tree was complicated, but the preconditions rejected it

  datatype SequentialValueTree<S, T> = SequentialValueTree(
    initialState: S,
    transitions: seq<TT.TransitionTree<T>>,
    included: seq<bool>,
    shrinkable: seq<bool>,
    markers: seq<TransitionState>,
    acceptable: seq<T>,
    minSize: nat,
    maxIx: nat,
    shrink: Shrink,
    prevShrink: Option<Shrink>)

  /** The number of slots, fixed when the tree is generated. */
  function Size<S, T>(t: SequentialValueTree<S, T>): nat {
    |t.transitions|
  }

  /**
   * The shape every tree keeps: one entry per slot in each per-slot vector,
   * `maxIx` the last slot, and the cursor and the remembered move on a slot.
   */
  ghost predicate Valid<S, T>(t: SequentialValueTree<S, T>) {
    var n := Size(t);
    && |t.included| == n && |t.shrinkable| == n && |t.markers| == n && |t.acceptable| == n
    && (forall i :: 0 <= i < n ==> TT.Valid(t.transitions[i]))
    && t.maxIx == (if n == 0 then 0 else n - 1)
    && t.shrink.ix <= t.maxIx
    && (t.prevShrink.Some? ==> t.prevShrink.value.ix < n)
  }

  /**
   * The transition slot `i` contributes to `current_at(ix)`: its tree's live
   * value if `i` is the override index, its cached acceptable one otherwise.
   */
  function SlotValue<S, T>(t: SequentialValueTree<S, T>, ix: Option<nat>, i: nat): T
    requires Valid(t) && i < Size(t)
  {
    if ix == Some(i) then TT.Current(t.transitions[i]) else t.acceptable[i]
  }

  function SlotValues<S, T>(t: SequentialValueTree<S, T>, ix: Option<nat>): (vs: seq<T>)
    requires Valid(t)
    ensures |vs| == Size(t)
    ensures forall i :: 0 <= i < Size(t) ==> vs[i] == SlotValue(t, ix, i)
  {
    seq(Size(t), i requires 0 <= i < Size(t) && Valid(t) => SlotValue(t, ix, i))
  }

  /**
   * `current_at(ix)`: the transitions of the included slots in increasing
   * slot order, with the slot `ix` (if given) replaced by its tree's live
   * value. `CurrentAtSelects` states which value lands where.
   */
  function CurrentAt<S, T>(t: SequentialValueTree<S, T>, ix: Option<nat>): (r: seq<T>)
    requires Valid(t)
    ensures |r| == Count(t.included) <= Size(t)
  {
    Filter(t.included, SlotValues(t, ix))
  }

  /**
   * The `k`-th transition of `current_at(ix)` comes from the `k`-th included
   * slot: the slot's live tree value if it is `ix`, its cached one otherwise.
   */
  lemma CurrentAtSelects<S, T>(t: SequentialValueTree<S, T>, ix: Option<nat>)
    requires Valid(t)
    ensures forall k :: 0 <= k < Count(t.included) ==>
      CurrentAt(t, ix)[k] == SlotValue(t, ix, Ones(t.included)[k])
  {
    FilterSelects(t.included, SlotValues(t, ix));
  }

  /** `current()`: the included cached transitions, with no override. */
  function CurrentValue<S, T>(t: SequentialValueTree<S, T>): (r: seq<T>)
    requires Valid(t)
    ensures |r| == Count(t.included)
  {
    CurrentAt(t, None)
  }

  /** Overriding a slot that is not included changes nothing. */
  lemma CurrentAtExcludedOverride<S, T>(t: SequentialValueTree<S, T>, ix: nat)
    requires Valid(t) && !Test(t.included, ix)
    ensures CurrentAt(t, Some(ix)) == CurrentAt(t, None)
  {
    FilterAgrees(t.included, SlotValues(t, Some(ix)), SlotValues(t, None));
  }

  /**
   * `check_acceptable(ix)`: replays `current_at(ix)` from the initial state,
   * so it holds exactly when every transition of `current_at(ix)` is
   * accepted by the preconditions in the state that `next` has reached from
   * the initial state by then.
   */
  function CheckAcceptable<S, T>(m: Machine<S, T>, t: SequentialValueTree<S, T>, ix: Option<nat>): (r: bool)
    requires Valid(t)
    ensures r <==> AllStepsAccepted(m, t.initialState, CurrentAt(t, ix))
  {
    Replay(m, t.initialState, CurrentAt(t, ix))
  }

  /**
   * `all_rejected`: the markers kept by the inclusion filter contain no
   * `Current`, that is, no included slot is marked `Current`.
   */
  function AllRejected<S, T>(t: SequentialValueTree<S, T>): (r: bool)
    requires Valid(t)
    ensures r <==> forall i :: 0 <= i < Size(t) && t.included[i] ==> t.markers[i] != Current
  {
    NoCurrentKept(t);
    Current !in Filter(t.included, t.markers)
  }

  /** An included slot marked `Current` is exactly a `Current` kept by the filter. */
  lemma NoCurrentKept<S, T>(t: SequentialValueTree<S, T>)
    requires Valid(t)
    ensures (Current !in Filter(t.included, t.markers))
            <==> forall i :: 0 <= i < Size(t) && t.included[i] ==> t.markers[i] != Current
  {
    var kept, ones := Filter(t.included, t.markers), Ones(t.included);
    FilterSelects(t.included, t.markers);
    if i :| 0 <= i < Size(t) && t.included[i] && t.markers[i] == Current {
      assert i in ones;
      var k :| 0 <= k < |ones| && ones[k] == i;
      assert kept[k] == Current;
    } else {
      forall k | 0 <= k < |kept| ensures kept[k] != Current {
        assert kept[k] == t.markers[ones[k]];
      }
    }
  }

  /**
   * `next_shrink_transition`: the shrink cursor on the following slot,
   * wrapping from `maxIx` back to 0.
   */
  function NextShrinkTransition<S, T>(t: SequentialValueTree<S, T>, ix: nat): (r: Shrink)
    requires ix <= t.maxIx
    ensures r.ShrinkTransition? && r.ix <= t.maxIx
    ensures r.ix == (ix + 1) % (t.maxIx + 1)
  {
    if ix == t.maxIx then ShrinkTransition(0) else ShrinkTransition(ix + 1)
  }

  /**
   * Caches slot `i`'s live tree value as its acceptable transition and marks
   * it `Current`. Afterwards `current()` is what `current_at(Some(i))` was.
   */
  function CacheSlot<S, T>(t: SequentialValueTree<S, T>, i: nat): (r: SequentialValueTree<S, T>)
    requires Valid(t) && i < Size(t)
    ensures Valid(r) && CurrentValue(r) == CurrentAt(t, Some(i))
    ensures r.acceptable == t.acceptable[i := TT.Current(t.transitions[i])]
    ensures r.markers == t.markers[i := Current]
    ensures r.included == t.included && r.shrinkable == t.shrinkable && r.transitions == t.transitions
  {
    var r := t.(acceptable := t.acceptable[i := TT.Current(t.transitions[i])],
                markers := t.markers[i := Current]);
    assert SlotValues(r, None) == SlotValues(t, Some(i));
    r
  }

  /** The tree with slot `ix` put back into the included set. */
  function Reinclude<S, T>(t: SequentialValueTree<S, T>, ix: nat): SequentialValueTree<S, T>
    requires ix < |t.included|
  {
    t.(included := t.included[ix := true])
  }

  /**
   * What every shrinking move preserves: the shape, at least `minSize`
   * included slots, `current()` replays acceptably, and when the last move
   * was a deletion, putting the deleted slot back also replays acceptably
   * (so that `complicate` may undo it). While deleting, the slots at and below
   * the cursor have not been deleted yet.
   */
  ghost predicate Inv<S, T>(m: Machine<S, T>, t: SequentialValueTree<S, T>) {
    && Valid(t)
    && Count(t.included) >= t.minSize
    && CheckAcceptable(m, t, None)
    && (t.shrink.DeleteTransition? ==> forall j :: 0 <= j <= t.shrink.ix && j < Size(t) ==> t.included[j])
    && (t.prevShrink.Some? && t.prevShrink.value.DeleteTransition? ==>
          CheckAcceptable(m, Reinclude(t, t.prevShrink.value.ix), None))
  }

  /** `current()` depends only on the inclusion bits and the cached transitions. */
  lemma CurrentDependsOnCache<S, T>(m: Machine<S, T>, t1: SequentialValueTree<S, T>, t2: SequentialValueTree<S, T>)
    requires Valid(t1) && Valid(t2)
    requires t1.included == t2.included && t1.acceptable == t2.acceptable
    requires t1.initialState == t2.initialState
    ensures CurrentValue(t1) == CurrentValue(t2)
    ensures CheckAcceptable(m, t1, None) == CheckAcceptable(m, t2, None)
  {
    assert SlotValues(t1, None) == SlotValues(t2, None);
  }
}
