/**
 * The hand-rolled binary max-heap `MyHeap` of the state-machine heap example
 * (proptest/examples/state_machine_heap.rs). The vector is a `seq<int>`: the
 * example instantiates the element type with `i32`, and the heap only ever
 * compares elements, so no arithmetic on them needs a width. Every operation
 * takes the heap by value and returns the new one, standing in for `&mut self`.
 */
module Heap {
  import opened Wrappers

  datatype MyHeap = MyHeap(data: seq<int>)

  /** Index of the parent of slot `i` in the implicit binary tree. */
  function Parent(i: nat): nat
    requires i > 0
  {
    (i - 1) / 2
  }

  /** Every parent is at least as large as each of its children. */
  ghost predicate IsMaxHeap(a: seq<int>) {
    forall i :: 0 < i < |a| ==> a[Parent(i)] >= a[i]
  }

  /**
   * The heap order holds on every edge except the one from `k` up to its
   * parent, and `k`'s parent already dominates `k`'s children: the state in
   * the middle of a sift-up.
   */
  ghost predicate HeapExceptUp(a: seq<int>, k: nat) {
    && (forall i :: 0 < i < |a| && i != k ==> a[Parent(i)] >= a[i])
    && (0 < k < |a| ==> forall c :: 0 < c < |a| && Parent(c) == k ==> a[Parent(k)] >= a[c])
  }

  /**
   * The heap order holds on every edge except those from `k` down to its
   * children, and `k`'s parent already dominates them: the state in the
   * middle of a sift-down.
   */
  ghost predicate HeapExceptDown(a: seq<int>, k: nat) {
    && (forall i :: 0 < i < |a| && Parent(i) != k ==> a[Parent(i)] >= a[i])
    && (0 < k < |a| ==> forall c :: 0 < c < |a| && Parent(c) == k ==> a[Parent(k)] >= a[c])
  }

  /** `new`: a heap with no elements, which is trivially ordered. */
  function New(): (h: MyHeap)
    ensures IsEmpty(h) && Len(h) == 0
    ensures IsMaxHeap(h.data)
  {
    MyHeap([])
  }

  /** `len`: the number of stored elements. */
  function Len(h: MyHeap): (n: nat)
    ensures n == |multiset(h.data)|
  {
    |h.data|
  }

  /** `is_empty`: true exactly when nothing is stored. */
  function IsEmpty(h: MyHeap): (b: bool)
    ensures b <==> Len(h) == 0
    ensures b <==> multiset(h.data) == multiset{}
  {
    |h.data| == 0
  }

  /** Exchanges two slots, as `Vec::swap` does. */
  function Swap(a: seq<int>, i: nat, j: nat): (b: seq<int>)
    requires i < |a| && j < |a|
    ensures |b| == |a| && b[i] == a[j] && b[j] == a[i]
    ensures forall k :: 0 <= k < |a| && k != i && k != j ==> b[k] == a[k]
    ensures multiset(b) == multiset(a)
  {
    a[i := a[j]][j := a[i]]
  }

  /**
   * `Vec::swap_remove(0)`: the last element takes the place of the first and
   * the vector shrinks by one.
   */
  function SwapRemoveFront(a: seq<int>): (b: seq<int>)
    requires |a| > 0
    ensures |b| == |a| - 1
    ensures multiset(b) + multiset{a[0]} == multiset(a)
    ensures forall k :: 0 < k < |b| ==> b[k] == a[k]
    ensures |b| > 0 ==> b[0] == a[|a| - 1]
  {
    if |a| == 1 then []
    else
      var middle := a[1..|a| - 1];
      assert a == [a[0]] + middle + [a[|a| - 1]];
      [a[|a| - 1]] + middle
  }

  /**
   * `push`: appends `value` and sifts it up while it is larger than its
   * parent. The stored multiset gains exactly `value`, and a max-heap stays one.
   */
  method Push(h: MyHeap, value: int) returns (h': MyHeap)
    ensures Len(h') == Len(h) + 1
    ensures multiset(h'.data) == multiset(h.data) + multiset{value}
    ensures IsMaxHeap(h.data) ==> IsMaxHeap(h'.data)
  {
    var a := h.data + [value];
    var index := |a| - 1;
    while index > 0
      invariant 0 <= index < |a| == |h.data| + 1
      invariant multiset(a) == multiset(h.data) + multiset{value}
      invariant IsMaxHeap(h.data) ==> HeapExceptUp(a, index)
      decreases index
    {
      var parent := (index - 1) / 2;
      if a[parent] < a[index] {
        ghost var before := a;
        a := Swap(a, index, parent);
        SiftUpStep(before, a, index, parent, IsMaxHeap(h.data));
        index := parent;
      } else {
        break;
      }
    }
    h' := MyHeap(a);
  }

  /** One swap of the sift-up moves the hole in the heap order one level up. */
  lemma SiftUpStep(a: seq<int>, b: seq<int>, k: nat, p: nat, wasHeap: bool)
    requires 0 < k < |a| && p == Parent(k) && a[p] < a[k]
    requires |b| == |a| && b[p] == a[k] && b[k] == a[p]
    requires forall j :: 0 <= j < |a| && j != k && j != p ==> b[j] == a[j]
    requires wasHeap ==> HeapExceptUp(a, k)
    ensures wasHeap ==> HeapExceptUp(b, p)
  {
    if wasHeap {
      forall i | 0 < i < |b| && i != p
        ensures b[Parent(i)] >= b[i]
      {
        if i == k {
        } else if Parent(i) == k {
          assert a[p] >= a[i];
        } else if Parent(i) == p {
          assert a[p] >= a[i];
        }
      }
      if 0 < p {
        forall c | 0 < c < |b| && Parent(c) == p
          ensures b[Parent(p)] >= b[c]
        {
          assert a[Parent(p)] >= a[p];
        }
      }
    }
  }

  /** `pop_wrong`: removes the root by `swap_remove(0)` and does not sift down. */
  function PopWrong(h: MyHeap): (r: (Option<int>, MyHeap))
    ensures IsEmpty(h) ==> r.0 == None && r.1 == h
    ensures !IsEmpty(h) ==> r.0 == Some(h.data[0]) && Len(r.1) == Len(h) - 1
    ensures !IsEmpty(h) ==> multiset(r.1.data) + multiset{h.data[0]} == multiset(h.data)
  {
    if IsEmpty(h) then (None, h) else (Some(h.data[0]), MyHeap(SwapRemoveFront(h.data)))
  }

  /**
   * `pop`: removes the root by `swap_remove(0)`, then sifts the moved element
   * down towards its larger child until both children are no larger.
   */
  method Pop(h: MyHeap) returns (r: Option<int>, h': MyHeap)
    ensures IsEmpty(h) ==> r == None && h' == h
    ensures !IsEmpty(h) ==> r == Some(h.data[0]) && Len(h') == Len(h) - 1
    ensures !IsEmpty(h) ==> multiset(h'.data) + multiset{h.data[0]} == multiset(h.data)
    ensures !IsEmpty(h) && IsMaxHeap(h.data) ==> forall i :: 0 <= i < |h.data| ==> r.value >= h.data[i]
    ensures IsMaxHeap(h.data) ==> IsMaxHeap(h'.data)
  {
    if IsEmpty(h) {
      return None, h;
    }
    var a := SwapRemoveFront(h.data);
    if IsMaxHeap(h.data) {
      RootIsMax(h.data);
      SwapRemoveKeepsLowerEdges(h.data, a);
    }
    a := SiftDown(a);
    r, h' := Some(h.data[0]), MyHeap(a);
  }

  /** After `swap_remove(0)` only the edges below the root may be out of order. */
  lemma SwapRemoveKeepsLowerEdges(a: seq<int>, b: seq<int>)
    requires IsMaxHeap(a) && |b| == |a| - 1
    requires forall k :: 0 < k < |b| ==> b[k] == a[k]
    ensures HeapExceptDown(b, 0)
  {
    forall i | 0 < i < |b| && Parent(i) != 0
      ensures b[Parent(i)] >= b[i]
    {
      assert a[Parent(i)] >= a[i];
    }
  }

  /** The sift-down loop of `pop`, starting at the root. */
  method SiftDown(a0: seq<int>) returns (a: seq<int>)
    ensures |a| == |a0| && multiset(a) == multiset(a0)
    ensures HeapExceptDown(a0, 0) ==> IsMaxHeap(a)
  {
    ghost var wasHeap := HeapExceptDown(a0, 0);
    a := a0;
    var index := 0;
    while true
      invariant 0 <= index && |a| == |a0| && multiset(a) == multiset(a0)
      invariant wasHeap ==> HeapExceptDown(a, index)
      decreases |a| - index
    {
      var child1 := index * 2 + 1;
      var child2 := index * 2 + 2;
      if child1 >= |a| {
        if wasHeap {
          SiftDownDone(a, index);
        }
        break;
      }
      var child := if child2 == |a| || a[child1] > a[child2] then child1 else child2;
      LargerChild(a, index, child);
      if a[index] < a[child] {
        ghost var before := a;
        a := Swap(a, child, index);
        SiftDownStep(before, a, index, child, wasHeap);
        index := child;
      } else {
        if wasHeap {
          SiftDownDone(a, index);
        }
        break;
      }
    }
  }

  /** The children of slot `k` are exactly slots `2k + 1` and `2k + 2`. */
  lemma ParentOfChild(k: nat, d: nat)
    requires d > 0
    ensures Parent(d) == k <==> d == 2 * k + 1 || d == 2 * k + 2
  {
  }

  /** `child` as `pop` picks it is at least as large as every child of `k`. */
  lemma LargerChild(a: seq<int>, k: nat, c: nat)
    requires 2 * k + 1 < |a|
    requires c == if 2 * k + 2 == |a| || a[2 * k + 1] > a[2 * k + 2] then 2 * k + 1 else 2 * k + 2
    ensures c < |a| && forall d :: 0 < d < |a| && Parent(d) == k ==> a[c] >= a[d]
  {
    forall d | 0 < d < |a| && Parent(d) == k
      ensures a[c] >= a[d]
    {
      ParentOfChild(k, d);
    }
  }

  /** Once `k` dominates its children, the sift-down leaves a max-heap. */
  lemma SiftDownDone(a: seq<int>, k: nat)
    requires HeapExceptDown(a, k)
    requires forall d :: 0 < d < |a| && (d == 2 * k + 1 || d == 2 * k + 2) ==> a[k] >= a[d]
    ensures IsMaxHeap(a)
  {
    forall i | 0 < i < |a|
      ensures a[Parent(i)] >= a[i]
    {
      ParentOfChild(k, i);
    }
  }

  /** One swap of the sift-down moves the hole in the heap order one level down. */
  lemma SiftDownStep(a: seq<int>, b: seq<int>, k: nat, c: nat, wasHeap: bool)
    requires c < |a| && (c == 2 * k + 1 || c == 2 * k + 2) && a[k] < a[c]
    requires forall d :: 0 < d < |a| && Parent(d) == k ==> a[c] >= a[d]
    requires |b| == |a| && b[k] == a[c] && b[c] == a[k]
    requires forall j :: 0 <= j < |a| && j != k && j != c ==> b[j] == a[j]
    requires wasHeap ==> HeapExceptDown(a, k)
    ensures wasHeap ==> HeapExceptDown(b, c)
  {
    if wasHeap {
      forall i | 0 < i < |b| && Parent(i) != c
        ensures b[Parent(i)] >= b[i]
      {
        if i == c {
        } else if Parent(i) == k {
          assert a[c] >= a[i];
        } else if i == k {
          assert a[Parent(k)] >= a[c];
        }
      }
    }
  }

  /** In a max-heap the root dominates every slot. */
  lemma {:induction false} RootDominates(a: seq<int>, i: nat)
    requires IsMaxHeap(a) && i < |a|
    ensures a[0] >= a[i]
    decreases i
  {
    if i > 0 {
      RootDominates(a, Parent(i));
    }
  }

  /** The root of a max-heap is its maximum. */
  lemma RootIsMax(a: seq<int>)
    requires IsMaxHeap(a)
    ensures forall i :: 0 <= i < |a| ==> a[0] >= a[i]
  {
    forall i | 0 <= i < |a|
      ensures a[0] >= a[i]
    {
      RootDominates(a, i);
    }
  }

  /**
   * The example's comment is right: `pop_wrong` can break the ordering. On
   * the heap [3, 2, 1] it returns 3 and leaves [1, 2], whose root is smaller
   * than its child.
   */
  lemma PopWrongBreaksHeap()
    ensures IsMaxHeap([3, 2, 1])
    ensures PopWrong(MyHeap([3, 2, 1])) == (Some(3), MyHeap([1, 2]))
    ensures !IsMaxHeap(PopWrong(MyHeap([3, 2, 1])).1.data)
  {
    var r := PopWrong(MyHeap([3, 2, 1]));
    assert r.1.data == [1, 2];
    assert Parent(1) == 0;
  }
}
