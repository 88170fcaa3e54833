/** Small array helpers. */
module Utils {

  /** What one element becomes when `e1` and `e2` trade places. */
  function SwapValue<T(==)>(x: T, e1: T, e2: T): T
  {
    if x == e1 then e2 else if x == e2 then e1 else x
  }

  /** The contents after the swap, element by element. */
  function Swapped<T(==)>(a: seq<T>, e1: T, e2: T): (r: seq<T>)
    ensures |r| == |a|
  {
    seq(|a|, i requires 0 <= i < |a| => SwapValue(a[i], e1, e2))
  }

  /** `swapInArray`: every occurrence of `e1` becomes `e2` and every occurrence of `e2` becomes
      `e1`, in one pass; the array is passed as its contents and the new contents returned. */
  method SwapInArray<T(==)>(a: seq<T>, e1: T, e2: T) returns (r: seq<T>)
    ensures |r| == |a|
    ensures forall i :: 0 <= i < |a| && a[i] == e1 ==> r[i] == e2
    ensures forall i :: 0 <= i < |a| && a[i] != e1 && a[i] == e2 ==> r[i] == e1
    ensures forall i :: 0 <= i < |a| && a[i] != e1 && a[i] != e2 ==> r[i] == a[i]
    ensures r == Swapped(a, e1, e2)
  {
    r := a;
    var i := 0;
    while i < |r|
      invariant 0 <= i <= |r| == |a|
      invariant forall k :: 0 <= k < i ==> r[k] == SwapValue(a[k], e1, e2)
      invariant forall k :: i <= k < |r| ==> r[k] == a[k]
    {
      if r[i] == e1 {
        r := r[i := e2];
      } else if r[i] == e2 {
        r := r[i := e1];
      }
      i := i + 1;
    }
  }

  /** Swapping the same two values again restores the contents. */
  lemma SwapTwiceRestores<T>(a: seq<T>, e1: T, e2: T)
    ensures Swapped(Swapped(a, e1, e2), e1, e2) == a
  {
    var b := Swapped(Swapped(a, e1, e2), e1, e2);
    forall i | 0 <= i < |a|
      ensures b[i] == a[i]
    {
      if e1 == e2 {
      } else if a[i] == e1 {
        assert Swapped(a, e1, e2)[i] == e2;
      } else if a[i] == e2 {
        assert Swapped(a, e1, e2)[i] == e1;
      }
    }
  }

  /** The two values trade their numbers of occurrences and every other value keeps its own. */
  lemma {:induction false} SwapCounts<T>(a: seq<T>, e1: T, e2: T, x: T)
    ensures multiset(Swapped(a, e1, e2))[e1] == multiset(a)[e2]
    ensures multiset(Swapped(a, e1, e2))[e2] == multiset(a)[e1]
    ensures x != e1 && x != e2 ==> multiset(Swapped(a, e1, e2))[x] == multiset(a)[x]
  {
    if |a| > 0 {
      SwapCounts(a[1..], e1, e2, x);
      assert a == [a[0]] + a[1..];
      assert Swapped(a, e1, e2) == [SwapValue(a[0], e1, e2)] + Swapped(a[1..], e1, e2);
    }
  }
}
