/** A max heap of fixed capacity in an array. */
module FixedHeap {

  function Parent(i: nat): nat
    requires i > 0
  {
    (i - 1) / 2
  }

  function LeftChild(i: nat): nat {
    i * 2 + 1
  }

  function RightChild(i: nat): nat {
    i * 2 + 2
  }

  ghost predicate IsHeap(s: seq<int>) {
    forall i | 0 < i < |s| :: s[Parent(i)] >= s[i]
  }

  function Swap(s: seq<int>, i: nat, j: nat): (r: seq<int>)
    requires i < |s| && j < |s|
    ensures |r| == |s|
  {
    s[i := s[j]][j := s[i]]
  }

  lemma SwapPermutes(s: seq<int>, i: nat, j: nat)
    requires i < |s| && j < |s|
    ensures multiset(Swap(s, i, j)) == multiset(s)
  {
  }

  /** The elements after Heapify(i). */
  function SiftUp(s: seq<int>, i: nat): (r: seq<int>)
    requires i < |s|
    ensures |r| == |s|
    decreases i
  {
    if i == 0 then s else SiftUp(if s[i] > s[Parent(i)] then Swap(s, i, Parent(i)) else s, Parent(i))
  }

  /** A heap but for element i, which may be greater than its parent. */
  ghost predicate HeapButUp(s: seq<int>, i: nat) {
    && (forall k | 0 < k < |s| && k != i :: s[Parent(k)] >= s[k])
    && (forall k | 0 < k < |s| && 0 < i == Parent(k) :: s[Parent(i)] >= s[k])
  }

  lemma SwapUp(s: seq<int>, i: nat)
    requires 0 < i < |s| && HeapButUp(s, i)
    ensures HeapButUp(if s[i] > s[Parent(i)] then Swap(s, i, Parent(i)) else s, Parent(i))
  {
  }

  /** Heapify makes a heap of the same elements. */
  lemma {:induction false} SiftUpMakesHeap(s: seq<int>, i: nat)
    requires i < |s| && HeapButUp(s, i)
    ensures IsHeap(SiftUp(s, i)) && multiset(SiftUp(s, i)) == multiset(s)
    decreases i
  {
    if i > 0 {
      SwapUp(s, i);
      SwapPermutes(s, i, Parent(i));
      hide HeapButUp, IsHeap, Swap;
      SiftUpMakesHeap(if s[i] > s[Parent(i)] then Swap(s, i, Parent(i)) else s, Parent(i));
    }
  }

  /** The child that Pushdown compares with, for an element that has one. */
  function GreaterChild(s: seq<int>, i: nat): (c: nat)
    ensures i < c && (LeftChild(i) < |s| ==> c < |s|)
  {
    if LeftChild(i) < |s| && (RightChild(i) >= |s| || s[LeftChild(i)] > s[RightChild(i)]) then LeftChild(i)
    else RightChild(i)
  }

  /** The elements after Pushdown(i). */
  function SiftDown(s: seq<int>, i: nat): (r: seq<int>)
    requires i < |s|
    ensures |r| == |s|
    decreases |s| - i
  {
    var c := GreaterChild(s, i);
    if LeftChild(i) >= |s| || s[i] >= s[c] then s else SiftDown(Swap(s, i, c), c)
  }

  /** A heap but for element i, which may be less than its children. */
  ghost predicate HeapButDown(s: seq<int>, i: nat) {
    && (forall k | 0 < k < |s| && Parent(k) != i :: s[Parent(k)] >= s[k])
    && (forall k | 0 < k < |s| && Parent(k) == i && 0 < i < |s| :: s[Parent(i)] >= s[k])
  }

  lemma GreaterChildIsGreatest(s: seq<int>, i: nat)
    requires LeftChild(i) < |s|
    ensures i < GreaterChild(s, i) < |s| && Parent(GreaterChild(s, i)) == i
    ensures forall k | 0 < k < |s| && Parent(k) == i :: s[k] <= s[GreaterChild(s, i)]
  {
    forall k | 0 < k < |s| && Parent(k) == i
      ensures s[k] <= s[GreaterChild(s, i)]
    {
      assert k == LeftChild(i) || k == RightChild(i);
    }
  }

  lemma SwapDown(s: seq<int>, i: nat, c: nat)
    requires i < c < |s| && Parent(c) == i && HeapButDown(s, i) && s[i] < s[c]
    requires forall k | 0 < k < |s| && Parent(k) == i :: s[k] <= s[c]
    ensures HeapButDown(Swap(s, i, c), c)
  {
    var t := Swap(s, i, c);
    forall k | 0 < k < |s| && Parent(k) != c
      ensures t[Parent(k)] >= t[k]
    {
      if Parent(k) == i {
      } else if k == i {
        assert s[Parent(i)] >= s[c];
      } else {
        assert s[Parent(k)] >= s[k];
      }
    }
    forall k | 0 < k < |s| && Parent(k) == c
      ensures t[Parent(c)] >= t[k]
    {
      assert s[Parent(k)] >= s[k];
    }
  }

  lemma HeapButNothing(s: seq<int>, i: nat)
    requires i < |s| && HeapButDown(s, i)
    requires LeftChild(i) < |s| ==> GreaterChild(s, i) < |s| && s[i] >= s[GreaterChild(s, i)]
    ensures IsHeap(s)
  {
    if LeftChild(i) < |s| {
      GreaterChildIsGreatest(s, i);
    }
    forall k | 0 < k < |s|
      ensures s[Parent(k)] >= s[k]
    {
      if Parent(k) == i {
        assert k >= LeftChild(i);
      }
    }
  }

  /** Pushdown makes a heap of the same elements. */
  lemma {:induction false} SiftDownMakesHeap(s: seq<int>, i: nat)
    requires i < |s| && HeapButDown(s, i)
    ensures IsHeap(SiftDown(s, i)) && multiset(SiftDown(s, i)) == multiset(s)
    decreases |s| - i
  {
    hide HeapButDown, IsHeap, Swap, GreaterChild;
    var c := GreaterChild(s, i);
    if LeftChild(i) < |s| {
      GreaterChildIsGreatest(s, i);
    }
    if LeftChild(i) < |s| && s[i] < s[c] {
      SwapPermutes(s, i, c);
      SwapDown(s, i, c);
      SiftDownMakesHeap(Swap(s, i, c), c);
    } else {
      HeapButNothing(s, i);
    }
  }

  function Pushed(s: seq<int>, value: int): seq<int> {
    SiftUp(s + [value], |s|)
  }

  function Popped(s: seq<int>): (r: seq<int>)
    requires s != []
    ensures |r| == |s| - 1
  {
    var t := s[0 := s[|s| - 1]][..|s| - 1];
    if t == [] then [] else SiftDown(t, 0)
  }

  lemma PushKeepsHeap(s: seq<int>, value: int)
    requires IsHeap(s)
    ensures IsHeap(Pushed(s, value)) && multiset(Pushed(s, value)) == multiset(s) + multiset{value}
  {
    SiftUpMakesHeap(s + [value], |s|);
  }

  lemma {:induction false} RootIsMax(s: seq<int>, i: nat)
    requires IsHeap(s) && i < |s|
    ensures s[i] <= s[0]
  {
    if i > 0 {
      RootIsMax(s, Parent(i));
    }
  }

  /** Pop takes out a greatest element, and leaves a heap of the others. */
  lemma PopKeepsHeap(s: seq<int>)
    requires IsHeap(s) && s != []
    ensures IsHeap(Popped(s)) && multiset(Popped(s)) + multiset{s[0]} == multiset(s)
    ensures forall x | x in s :: x <= s[0]
  {
    var last := |s| - 1;
    var t := s[0 := s[last]][..last];
    SwapPermutes(s, 0, last);
    assert Swap(s, 0, last) == t + [s[0]];
    if t != [] {
      SiftDownMakesHeap(t, 0);
    }
    forall x | x in s
      ensures x <= s[0]
    {
      var i :| 0 <= i < |s| && s[i] == x;
      RootIsMax(s, i);
    }
  }

  function PushAll(values: seq<int>): seq<int> {
    if values == [] then [] else Pushed(PushAll(values[..|values| - 1]), values[|values| - 1])
  }

  /** What Pop returns, called until the heap is empty. */
  function PopAll(s: seq<int>): seq<int>
    decreases |s|
  {
    if s == [] then [] else [s[0]] + PopAll(Popped(s))
  }

  ghost predicate Descending(s: seq<int>) {
    forall i, j | 0 <= i < j < |s| :: s[i] >= s[j]
  }

  lemma PrependGreatest(x: int, rest: seq<int>, s: seq<int>)
    requires Descending(rest) && multiset(rest) + multiset{x} == multiset(s)
    requires forall y | y in s :: y <= x
    ensures Descending([x] + rest) && multiset([x] + rest) == multiset(s)
  {
    forall i | 0 <= i < |rest|
      ensures x >= rest[i]
    {
      assert rest[i] in multiset(rest) + multiset{x};
      assert rest[i] in s;
    }
  }

  lemma {:induction false} PopAllDescends(s: seq<int>)
    requires IsHeap(s)
    ensures Descending(PopAll(s)) && multiset(PopAll(s)) == multiset(s)
    decreases |s|
  {
    if s != [] {
      hide Descending, IsHeap, Popped;
      PopKeepsHeap(s);
      PopAllDescends(Popped(s));
      PrependGreatest(s[0], PopAll(Popped(s)), s);
    }
  }

  lemma {:induction false} PushAllMakesHeap(values: seq<int>)
    ensures IsHeap(PushAll(values)) && multiset(PushAll(values)) == multiset(values)
  {
    if values != [] {
      var front, last := values[..|values| - 1], values[|values| - 1];
      PushAllMakesHeap(front);
      PushKeepsHeap(PushAll(front), last);
      assert values == front + [last];
    }
  }

  /** Pushing values and popping until empty sorts them. */
  lemma HeapSorts(values: seq<int>)
    ensures var popped := PopAll(PushAll(values));
            Descending(popped) && multiset(popped) == multiset(values)
  {
    PushAllMakesHeap(values);
    PopAllDescends(PushAll(values));
  }

  datatype Status = Ok | FailedPrecondition

  datatype StatusOr = Value(value: int) | NotFound

  class FixedMaxHeap {
    const values: array<int>
    var size: nat

    ghost predicate Valid()
      reads this, values
    {
      size <= values.Length && IsHeap(values[..size])
    }

    ghost function Elements(): seq<int>
      requires size <= values.Length
      reads this, values
    {
      values[..size]
    }

    constructor (heapSize: nat)
      ensures Valid() && Elements() == [] && values.Length == heapSize && fresh(values)
    {
      values := new int[heapSize];
      size := 0;
    }

    method Push(value: int) returns (status: Status)
      requires Valid()
      modifies this`size, values
      ensures Valid() && status == if old(size) == values.Length then FailedPrecondition else Ok
      ensures Elements() == if status == Ok then Pushed(old(Elements()), value) else old(Elements())
    {
      assert IsHeap(Pushed(Elements(), value)) by {
        PushKeepsHeap(Elements(), value);
      }
      hide IsHeap;
      if size + 1 > values.Length {
        return FailedPrecondition;
      }
      values[size] := value;
      assert values[..size + 1] == old(Elements()) + [value];
      Heapify(size, size + 1);
      size := size + 1;
      return Ok;
    }

    method GetRoot() returns (root: StatusOr)
      requires Valid()
      ensures root == NotFound <==> Elements() == []
      ensures root.Value? ==> root.value in Elements() && forall x | x in Elements() :: x <= root.value
    {
      if size == 0 {
        return NotFound;
      }
      PopKeepsHeap(Elements());
      return Value(values[0]);
    }

    method Pop() returns (root: StatusOr)
      requires Valid()
      modifies this`size, values
      ensures Valid() && (root == NotFound <==> old(Elements()) == [])
      ensures root == NotFound ==> Elements() == []
      ensures root.Value? ==> root.value == old(Elements())[0] && Elements() == Popped(old(Elements()))
    {
      if size == 0 {
        return NotFound;
      }
      assert IsHeap(Popped(Elements())) by {
        PopKeepsHeap(Elements());
      }
      hide IsHeap;
      var value := values[0];
      values[0] := values[size - 1];
      size := size - 1;
      assert values[..size] == old(Elements())[0 := old(values[size - 1])][..size];
      if size != 0 {
        Pushdown(0);
      }
      return Value(value);
    }

    /** Moves element i up, among the first n elements. */
    method Heapify(i: nat, ghost n: nat)
      requires i < n <= values.Length && (size == 0 ==> i == 0)
      modifies values
      ensures values[..n] == SiftUp(old(values[..n]), i) && values[n..] == old(values[n..])
      decreases i
    {
      if size == 0 || i == 0 {
        return;
      }
      var p := Parent(i);
      if values[i] > values[p] {
        var temp := values[p];
        values[p] := values[i];
        values[i] := temp;
        assert values[..n] == Swap(old(values[..n]), i, p);
      }
      Heapify(p, n);
    }

    /** Moves element i down. */
    method Pushdown(i: nat)
      requires i < size <= values.Length
      modifies values
      ensures Elements() == SiftDown(old(Elements()), i)
      decreases size - i
    {
      if size == 0 || i == size - 1 {
        return;
      }
      var left, right := LeftChild(i), RightChild(i);
      if left >= size && right >= size {
        return;
      }
      var swapLeft, child := false, right;
      if left < size && right < size {
        if values[left] > values[right] {
          swapLeft, child := true, left;
        }
      } else if left < size {
        swapLeft, child := true, left;
      }
      if values[i] < values[child] {
        var temp := values[i];
        values[i] := values[child];
        values[child] := temp;
        assert Elements() == Swap(old(Elements()), i, child);
        Pushdown(if swapLeft then left else right);
      }
    }
  }
}
