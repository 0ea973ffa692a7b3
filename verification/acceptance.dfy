/**
 * The user's abstract state machine as the sequential strategy sees it
 * (`preconditions` and `next` of proptest/src/strategy/state_machine.rs), and
 * what it means for a sequence of transitions to be acceptable from a state.
 */
module Acceptance {

  /** The two functions the strategy calls on the user's model. */
  datatype Machine<!S, -T> = Machine(preconditions: (S, T) -> bool, next: (S, T) -> S)

  /** The model state after applying `next` to every transition of `ts` in order. */
  function StateAfter<S, T>(m: Machine<S, T>, s: S, ts: seq<T>): S
    decreases |ts|
  {
    if |ts| == 0 then s else m.next(StateAfter(m, s, ts[..|ts| - 1]), ts[|ts| - 1])
  }

  /**
   * Every transition is accepted by the preconditions in the state reached by
   * applying all the transitions before it.
   */
  ghost predicate AllStepsAccepted<S, T>(m: Machine<S, T>, s: S, ts: seq<T>) {
    forall k :: 0 <= k < |ts| ==> m.preconditions(StateAfter(m, s, ts[..k]), ts[k])
  }

  /** Folding `next` over `[t] + rest` is folding it over `rest` from `next(s, t)`. */
  lemma {:induction false} StateAfterCons<S, T>(m: Machine<S, T>, s: S, t: T, rest: seq<T>)
    ensures StateAfter(m, s, [t] + rest) == StateAfter(m, m.next(s, t), rest)
    decreases |rest|
  {
    if |rest| > 0 {
      var ts := [t] + rest;
      assert ts[..|ts| - 1] == [t] + rest[..|rest| - 1];
      StateAfterCons(m, s, t, rest[..|rest| - 1]);
    } else {
      assert ([t] + rest)[..0] == [];
    }
  }

  /**
   * A sequence with `t` in front is accepted from `s` exactly when `t` is
   * accepted in `s` and the rest is accepted from `next(s, t)`.
   */
  lemma AllStepsAcceptedCons<S, T>(m: Machine<S, T>, s: S, t: T, rest: seq<T>)
    ensures AllStepsAccepted(m, s, [t] + rest)
            <==> m.preconditions(s, t) && AllStepsAccepted(m, m.next(s, t), rest)
  {
    var ts, s' := [t] + rest, m.next(s, t);
    assert ts[..0] == [];
    forall k | 1 <= k < |ts|
      ensures StateAfter(m, s, ts[..k]) == StateAfter(m, s', rest[..k - 1])
    {
      assert ts[..k] == [t] + rest[..k - 1];
      StateAfterCons(m, s, t, rest[..k - 1]);
    }
    if AllStepsAccepted(m, s, ts) {
      forall k | 0 <= k < |rest|
        ensures m.preconditions(StateAfter(m, s', rest[..k]), rest[k])
      {
        assert ts[k + 1] == rest[k];
      }
    }
    if m.preconditions(s, t) && AllStepsAccepted(m, s', rest) {
      forall k | 0 <= k < |ts|
        ensures m.preconditions(StateAfter(m, s, ts[..k]), ts[k])
      {
        if k > 0 {
          assert ts[k] == rest[k - 1];
        }
      }
    }
  }

  /**
   * The loop of `check_acceptable`: walk the transitions from the front,
   * checking the precondition and then advancing the state, and give up at
   * the first transition that is not accepted. It accepts exactly the
   * sequences whose every step is accepted.
   */
  function Replay<S, T>(m: Machine<S, T>, s: S, ts: seq<T>): (r: bool)
    ensures r <==> AllStepsAccepted(m, s, ts)
    decreases |ts|
  {
    if |ts| == 0 then true
    else
      assert ts == [ts[0]] + ts[1..];
      AllStepsAcceptedCons(m, s, ts[0], ts[1..]);
      if m.preconditions(s, ts[0]) then Replay(m, m.next(s, ts[0]), ts[1..])
      else false
  }
}
