/**
 * `ObservedVec` (proptest-state-machine/src/strategy/observed_vec.rs): a
 * vector of transitions paired with a shared counter that its iterator bumps
 * once per element it yields, so that whoever created the vector can later
 * read how many leading transitions the test actually consumed.
 *
 * The counter is an `Arc<AtomicUsize>` with one writer (the iterator) that
 * finishes before anyone reads it. It is modelled by its value: `into_iter`
 * hands the value on to the iterator, every `next` returns the iterator with
 * the new value, and the creator's later read is the value the last iterator
 * carries.
 */
module ObservedVec {
  import opened Wrappers

  datatype ObservedVec<T> = ObservedVec(seenCounter: nat, transitions: seq<T>)

  /** The consuming iterator: the shared counter and the not yet yielded suffix. */
  datatype IntoIter<T> = IntoIter(seenCounter: nat, remaining: seq<T>)

  /** `ObservedVec::new`: wraps the transitions around an existing counter handle. */
  function New<T>(seenCounter: nat, transitions: seq<T>): (v: ObservedVec<T>)
    ensures v.transitions == transitions && v.seenCounter == seenCounter
  {
    ObservedVec(seenCounter, transitions)
  }

  /** `len`: the number of stored transitions. */
  function Len<T>(v: ObservedVec<T>): nat {
    |v.transitions|
  }

  /** `is_empty`: true exactly when no transition is stored. */
  function IsEmpty<T>(v: ObservedVec<T>): (b: bool)
    ensures b <==> Len(v) == 0
    ensures b <==> v.transitions == []
  {
    |v.transitions| == 0
  }

  /** `into_iter`: the iterator starts at the front and keeps the same counter. */
  function IntoIterator<T>(v: ObservedVec<T>): (it: IntoIter<T>)
    ensures it.seenCounter == v.seenCounter
    ensures it.remaining == v.transitions
  {
    IntoIter(v.seenCounter, v.transitions)
  }

  /**
   * `IntoIter::next`: yields the next transition and bumps the counter by one;
   * once the transitions are exhausted it yields nothing and leaves the
   * counter alone.
   */
  function Next<T>(it: IntoIter<T>): (r: (Option<T>, IntoIter<T>))
    ensures r.0.Some? <==> it.remaining != []
    ensures r.0.Some? ==> && r.0.value == it.remaining[0]
                          && r.1.remaining == it.remaining[1..]
                          && r.1.seenCounter == it.seenCounter + 1
    ensures r.0.None? ==> r.1 == it
    ensures r.1.seenCounter >= it.seenCounter
  {
    if it.remaining == [] then
      (None, it)
    else
      (Some(it.remaining[0]), IntoIter(it.seenCounter + 1, it.remaining[1..]))
  }

  /**
   * Calls `next` `k` times, collecting what it yields. The consumer sees the
   * first `k` transitions in vector order (or all of them, if there are fewer)
   * and the counter has grown by exactly the number of items yielded.
   */
  function NextN<T>(it: IntoIter<T>, k: nat): (r: (seq<T>, IntoIter<T>))
    ensures |r.0| == if k <= |it.remaining| then k else |it.remaining|
    ensures r.0 == it.remaining[..|r.0|]
    ensures r.1.remaining == it.remaining[|r.0|..]
    ensures r.1.seenCounter == it.seenCounter + |r.0|
    decreases k
  {
    if k == 0 then
      ([], it)
    else
      var (item, it') := Next(it);
      match item
      case None => ([], it)
      case Some(x) =>
        var (rest, last) := NextN(it', k - 1);
        ([x] + rest, last)
  }

  /**
   * Iterates to the end, as a `for` loop over the vector does: every stored
   * transition is yielded exactly once, in order, and the counter ends up
   * increased by the number of transitions.
   */
  function Drain<T>(it: IntoIter<T>): (r: (seq<T>, IntoIter<T>))
    ensures r.0 == it.remaining
    ensures r.1.remaining == []
    ensures r.1.seenCounter == it.seenCounter + |it.remaining|
    decreases |it.remaining|
  {
    var (item, it') := Next(it);
    match item
    case None => ([], it)
    case Some(x) =>
      var (rest, last) := Drain(it');
      ([x] + rest, last)
  }

  /**
   * After iterating a fresh `ObservedVec` to the end, the counter its creator
   * holds equals the number of stored transitions, and the items came out in
   * vector order.
   */
  lemma FullIterationCountsLength<T>(transitions: seq<T>)
    ensures Drain(IntoIterator(New(0, transitions))).0 == transitions
    ensures Drain(IntoIterator(New(0, transitions))).1.seenCounter == |transitions|
  {
  }

  /**
   * A consumer that stops after `k` steps (a test that fails early) leaves the
   * counter at exactly the number of leading transitions it saw.
   */
  lemma PartialIterationCountsPrefix<T>(transitions: seq<T>, k: nat)
    requires k <= |transitions|
    ensures NextN(IntoIterator(New(0, transitions)), k).0 == transitions[..k]
    ensures NextN(IntoIterator(New(0, transitions)), k).1.seenCounter == k
  {
  }

  /** The elements of `s` back to front, as `into_iter().rev().collect()` builds them. */
  function Reverse<T>(s: seq<T>): (r: seq<T>)
    ensures |r| == |s|
    ensures forall k :: 0 <= k < |s| ==> r[k] == s[|s| - 1 - k]
  {
    if s == [] then [] else Reverse(s[1..]) + [s[0]]
  }

  /**
   * `xs.into_iter().zip(it)` run to the end: each step first takes the next
   * element of `xs` and only then calls `next` on `it`, so the iterator's
   * counter is not bumped once `xs` runs out.
   */
  function {:induction false} Zip<T>(xs: seq<T>, it: IntoIter<T>): (r: (seq<(T, T)>, IntoIter<T>))
    ensures |r.0| == if |xs| <= |it.remaining| then |xs| else |it.remaining|
    ensures forall k :: 0 <= k < |r.0| ==> r.0[k] == (xs[k], it.remaining[k])
    ensures r.1.seenCounter == it.seenCounter + |r.0|
    decreases |xs|
  {
    if xs == [] then
      ([], it)
    else
      var (item, it') := Next(it);
      match item
      case None => ([], it')
      case Some(y) =>
        var (rest, last) := Zip(xs[1..], it');
        ([(xs[0], y)] + rest, last)
  }

  /**
   * The body of the iteration test, given the transitions it stores: every
   * zipped pair must be equal, and the counter must end at the vector's
   * length.
   */
  predicate IterTestPasses<T(==)>(vec: seq<T>, transitions: seq<T>) {
    var z := Zip(vec, IntoIterator(New(0, transitions)));
    && (forall k :: 0 <= k < |z.0| ==> z.0[k].0 == z.0[k].1)
    && z.1.seenCounter == |vec|
  }

  /**
   * The iteration test as written stores the vector reversed, so it passes
   * exactly for palindromes. The counter part holds for every vector: only
   * the element comparison goes wrong.
   */
  lemma IterTestAsWritten<T>(vec: seq<T>)
    ensures IterTestPasses(vec, Reverse(vec)) <==> vec == Reverse(vec)
    ensures Zip(vec, IntoIterator(New(0, Reverse(vec)))).1.seenCounter == |vec|
  {
    var rev := Reverse(vec);
    var z := Zip(vec, IntoIterator(New(0, rev)));
    assert |z.0| == |vec|;
    if IterTestPasses(vec, rev) {
      forall k | 0 <= k < |vec| ensures vec[k] == rev[k] {
        assert z.0[k] == (vec[k], rev[k]);
      }
    }
    if vec == rev {
      forall k | 0 <= k < |z.0| ensures z.0[k].0 == z.0[k].1 {
        assert z.0[k] == (vec[k], rev[k]);
      }
    }
  }

  /** For `[1, 2]` the test as written compares 1 with 2 and fails. */
  lemma IterTestFailsOnPair()
    ensures !IterTestPasses([1, 2], Reverse([1, 2]))
  {
    var pairs := Zip([1, 2], IntoIterator(New(0, Reverse([1, 2])))).0;
    assert Reverse([1, 2])[0] == 2;
    assert pairs[0] == (1, 2);
  }

  /**
   * The evidently intended test stores the vector itself, and then passes for
   * every vector: the pairs are equal and all of them were counted.
   */
  lemma IterTestCorrected<T>(vec: seq<T>)
    ensures IterTestPasses(vec, vec)
  {
  }

  /**
   * The formatting test compares the `Debug` text of the stored transitions
   * with that of the vector. `Debug` for a vector lists its elements in
   * order, so the two texts are equal exactly when the element sequences
   * are: the test as written, storing the reversal, passes only for
   * palindromes, and fails for `[1, 2]`.
   */
  lemma FmtTestAsWritten<T>(vec: seq<T>)
    ensures Debug(New(0, Reverse(vec))) == vec <==> vec == Reverse(vec)
    ensures Debug(New(0, Reverse([1, 2]))) != [1, 2]
  {
    assert Reverse([1, 2])[0] == 2;
  }

  /** Storing the vector itself, the formatting test passes for every vector. */
  lemma FmtTestCorrected<T>(vec: seq<T>)
    ensures Debug(New(0, vec)) == vec
  {
  }

  /** `fmt`: an `ObservedVec` renders as its transitions, in order. */
  function Debug<T>(v: ObservedVec<T>): seq<T> {
    v.transitions
  }
}
