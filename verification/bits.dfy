/**
 * The fixed-width bitsets (`VarBitSet`) the shrinker keeps over slot
 * indices, as sequences of booleans, and the selection of the values whose
 * bit is set.
 */
module Bits {

  /**
   * `count`: the number of set bits. It is 0 exactly when no bit is set and
   * the width exactly when every bit is set.
   */
  function Count(bits: seq<bool>): (n: nat)
    ensures n <= |bits|
    ensures n == 0 <==> forall i :: 0 <= i < |bits| ==> !bits[i]
    ensures n == |bits| <==> forall i :: 0 <= i < |bits| ==> bits[i]
    decreases |bits|
  {
    if |bits| == 0 then 0
    else
      var p := bits[..|bits| - 1];
      assert forall i :: 0 <= i < |p| ==> p[i] == bits[i];
      Count(p) + (if bits[|bits| - 1] then 1 else 0)
  }

  /** `VarBitSet::saturated(n)`: `n` bits, all set. */
  function Saturated(n: nat): (bits: seq<bool>)
    ensures |bits| == n && Count(bits) == n
    ensures forall i :: 0 <= i < n ==> bits[i]
  {
    seq(n, i => true)
  }

  /**
   * `test`: whether bit `ix` is set, which is whether `ix` is among the
   * indices of the set bits; indices past the width read as clear.
   */
  function Test(bits: seq<bool>, ix: nat): (r: bool)
    ensures r <==> ix in Ones(bits)
  {
    ix < |bits| && bits[ix]
  }

  /** `set`/`clear` of one bit changes the count by at most that bit. */
  lemma {:induction false} CountUpdate(bits: seq<bool>, ix: nat, v: bool)
    requires ix < |bits|
    ensures Count(bits[ix := v]) == Count(bits) - (if bits[ix] then 1 else 0) + (if v then 1 else 0)
    decreases |bits|
  {
    var n := |bits|;
    var b' := bits[ix := v];
    if ix < n - 1 {
      assert b'[..n - 1] == bits[..n - 1][ix := v];
      CountUpdate(bits[..n - 1], ix, v);
    } else {
      assert b'[..n - 1] == bits[..n - 1];
    }
  }

  /** The indices of the set bits, in increasing order. */
  function Ones(bits: seq<bool>): (r: seq<nat>)
    ensures |r| == Count(bits)
    ensures forall k :: 0 <= k < |r| ==> r[k] < |bits| && bits[r[k]]
    ensures forall k, l :: 0 <= k < l < |r| ==> r[k] < r[l]
    ensures forall i :: 0 <= i < |bits| && bits[i] ==> i in r
    decreases |bits|
  {
    if |bits| == 0 then []
    else
      var p := bits[..|bits| - 1];
      var r := Ones(p);
      assert forall i :: 0 <= i < |p| ==> p[i] == bits[i];
      if bits[|bits| - 1] then r + [|bits| - 1] else r
  }

  /** The values whose bit is set, kept in index order. */
  function Filter<T>(bits: seq<bool>, vals: seq<T>): (r: seq<T>)
    requires |bits| == |vals|
    ensures |r| == Count(bits)
    decreases |bits|
  {
    if |bits| == 0 then []
    else
      var n := |bits|;
      var r := Filter(bits[..n - 1], vals[..n - 1]);
      if bits[n - 1] then r + [vals[n - 1]] else r
  }

  /** The `k`-th value kept by `Filter` is the value at the `k`-th set bit. */
  lemma {:induction false} FilterSelects<T>(bits: seq<bool>, vals: seq<T>)
    requires |bits| == |vals|
    ensures forall k :: 0 <= k < Count(bits) ==> Filter(bits, vals)[k] == vals[Ones(bits)[k]]
    decreases |bits|
  {
    if |bits| > 0 {
      var n := |bits|;
      var p, pv := bits[..n - 1], vals[..n - 1];
      FilterSelects(p, pv);
      var f, fp := Filter(bits, vals), Filter(p, pv);
      var o, op := Ones(bits), Ones(p);
      assert f == if bits[n - 1] then fp + [vals[n - 1]] else fp;
      assert o == if bits[n - 1] then op + [n - 1] else op;
      forall k | 0 <= k < Count(bits)
        ensures f[k] == vals[o[k]]
      {
        if k < |fp| {
          assert f[k] == fp[k] == pv[op[k]];
          assert o[k] == op[k];
        }
      }
    }
  }

  /** Filtering only looks at the values whose bit is set. */
  lemma {:induction false} FilterAgrees<T>(bits: seq<bool>, vals: seq<T>, vals': seq<T>)
    requires |bits| == |vals| == |vals'|
    requires forall i :: 0 <= i < |bits| && bits[i] ==> vals[i] == vals'[i]
    ensures Filter(bits, vals) == Filter(bits, vals')
    decreases |bits|
  {
    if |bits| > 0 {
      var n := |bits|;
      FilterAgrees(bits[..n - 1], vals[..n - 1], vals'[..n - 1]);
    }
  }

  /** With every bit set, filtering keeps all the values. */
  lemma {:induction false} FilterAll<T>(bits: seq<bool>, vals: seq<T>)
    requires |bits| == |vals|
    requires forall i :: 0 <= i < |bits| ==> bits[i]
    ensures Filter(bits, vals) == vals
    decreases |bits|
  {
    if |bits| > 0 {
      var n := |bits|;
      FilterAll(bits[..n - 1], vals[..n - 1]);
      assert vals == vals[..n - 1] + [vals[n - 1]];
    }
  }
}
