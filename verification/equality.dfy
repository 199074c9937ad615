/**
 `operator==` and `operator!=` of `rice::vector<T>` (vector.h:679-699), both
 written in the source as an early-exit loop over the live prefix.
 */
module Equality {
  import opened VectorState

  /**
   What both operators decide: equal sizes and equal elements at every index.
   Capacity and the reallocation counter play no part.
   */
  predicate SameElements<T(==)>(a: Vec<T>, b: Vec<T>) {
    && |a.elems| == |b.elems|
    && forall i :: 0 <= i < |a.elems| ==> a.elems[i] == b.elems[i]
  }

  /** `a == b`: false on a size difference or at the first differing index. */
  method Equal<T(==)>(a: Vec<T>, b: Vec<T>) returns (eq: bool)
    ensures eq <==> SameElements(a, b)
    ensures eq <==> a.elems == b.elems
  {
    if |a.elems| != |b.elems| {
      return false;
    }
    var i := 0;
    while i < |a.elems|
      invariant i <= |a.elems|
      invariant forall j :: 0 <= j < i ==> a.elems[j] == b.elems[j]
    {
      if a.elems[i] != b.elems[i] {
        return false;
      }
      i := i + 1;
    }
    return true;
  }

  /** `a != b`: its own loop in the source, deciding exactly the negation of `a == b`. */
  method NotEqual<T(==)>(a: Vec<T>, b: Vec<T>) returns (ne: bool)
    ensures ne <==> !SameElements(a, b)
    ensures ne <==> a.elems != b.elems
  {
    if |a.elems| != |b.elems| {
      return true;
    }
    var i := 0;
    while i < |a.elems|
      invariant i <= |a.elems|
      invariant forall j :: 0 <= j < i ==> a.elems[j] == b.elems[j]
    {
      if a.elems[i] != b.elems[i] {
        return true;
      }
      i := i + 1;
    }
    return false;
  }
}
