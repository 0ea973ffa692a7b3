/**
 * The value tree a transition strategy hands out for one slot, reduced to
 * what the shrinker relies on: a current value, `simplify` and `complicate`.
 * It is modelled as a finite list of ever simpler candidates with a cursor:
 * `simplify` moves towards the simpler end, `complicate` back towards the
 * value first generated, and each refuses at its end of the list.
 */
module TransitionTree {

  datatype TransitionTree<T> = TransitionTree(candidates: seq<T>, pos: nat)

  ghost predicate Valid<T>(v: TransitionTree<T>) {
    v.pos < |v.candidates|
  }

  /** `current`: the value the tree currently stands for. */
  function Current<T>(v: TransitionTree<T>): T
    requires Valid(v)
  {
    v.candidates[v.pos]
  }

  /** How many more times `simplify` can still succeed. */
  function Remaining<T>(v: TransitionTree<T>): nat
    requires Valid(v)
  {
    |v.candidates| - 1 - v.pos
  }

  /**
   * `simplify`: moves to the next simpler candidate when there is one. A
   * success always uses up one step of the remaining work; a refusal changes
   * nothing.
   */
  function Simplify<T>(v: TransitionTree<T>): (r: (bool, TransitionTree<T>))
    requires Valid(v)
    ensures Valid(r.1) && r.1.candidates == v.candidates
    ensures r.0 <==> Remaining(v) > 0
    ensures r.0 ==> Remaining(r.1) == Remaining(v) - 1
    ensures !r.0 ==> r.1 == v
  {
    if v.pos + 1 < |v.candidates| then (true, v.(pos := v.pos + 1)) else (false, v)
  }

  /**
   * `complicate`: moves back to the previous, less simple candidate when there
   * is one; a refusal changes nothing.
   */
  function Complicate<T>(v: TransitionTree<T>): (r: (bool, TransitionTree<T>))
    requires Valid(v)
    ensures Valid(r.1) && r.1.candidates == v.candidates
    ensures r.0 <==> v.pos > 0
    ensures r.0 ==> Remaining(r.1) == Remaining(v) + 1
    ensures !r.0 ==> r.1 == v
  {
    if v.pos > 0 then (true, v.(pos := v.pos - 1)) else (false, v)
  }

  /** `complicate` right after a successful `simplify` returns to the same value. */
  lemma ComplicateUndoesSimplify<T>(v: TransitionTree<T>)
    requires Valid(v) && Simplify(v).0
    ensures Complicate(Simplify(v).1) == (true, v)
  {
  }

  /** The total simplification work left in a list of trees. */
  function Work<T>(vs: seq<TransitionTree<T>>): nat
    requires forall i :: 0 <= i < |vs| ==> Valid(vs[i])
    decreases |vs|
  {
    if |vs| == 0 then 0 else Work(vs[..|vs| - 1]) + Remaining(vs[|vs| - 1])
  }

  /** Replacing one tree by a simplified one lowers the total work. */
  lemma {:induction false} WorkDecreases<T>(vs: seq<TransitionTree<T>>, ix: nat, v: TransitionTree<T>)
    requires forall i :: 0 <= i < |vs| ==> Valid(vs[i])
    requires ix < |vs| && Valid(v) && Remaining(v) < Remaining(vs[ix])
    ensures Work(vs[ix := v]) < Work(vs)
    decreases |vs|
  {
    var n := |vs|;
    var vs' := vs[ix := v];
    if ix < n - 1 {
      assert vs'[..n - 1] == vs[..n - 1][ix := v];
      WorkDecreases(vs[..n - 1], ix, v);
    } else {
      assert vs'[..n - 1] == vs[..n - 1];
    }
  }
}
