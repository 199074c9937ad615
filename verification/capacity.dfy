/**
 Size and capacity members of `rice::vector<T>` (vector.h:333-425): the
 observers, both `resize` overloads, `reserve` and `shrink_to_fit`.
 */
module Capacity {
  import opened VectorState

  /** `empty()`. */
  function Empty<T>(v: Vec<T>): (b: bool)
    ensures b <==> v.elems == []
  {
    |v.elems| == 0
  }

  /** `size()`: the number of live elements; within `capacity()` on a valid vector. */
  function Size<T>(v: Vec<T>): (n: nat)
    ensures n == |v.elems|
    ensures Valid(v) ==> n <= Capacity(v)
  {
    |v.elems|
  }

  /** `capacity()`: the number of allocated slots; never below `size()` on a valid vector. */
  function Capacity<T>(v: Vec<T>): (c: nat)
    ensures c == v.cap
    ensures Valid(v) <==> |v.elems| <= c
  {
    v.cap
  }

  /** `getReallocateCnt()`: how many times the buffer has been replaced. */
  function ReallocateCount<T>(v: Vec<T>): (n: nat)
    ensures n == v.reallocs
  {
    v.reallocs
  }

  /**
   `resize(n)` without a value. When it grows, the new slots are never
   constructed, so they hold no meaningful value: `filler` stands in for them
   and no property is stated about it. Quirk kept from the source: the inner
   test repeats the outer `n > size` instead of checking `n > capacity`
   (vector.h:375), so every growing call reallocates to exactly `n` slots, even
   when that is fewer than the current capacity. The shrinking branch's
   destroy loop runs from the old size up to the smaller new one and so never
   executes; the live prefix is just cut.
   */
  function ResizeUnfilled<T>(v: Vec<T>, n: nat, filler: T): (r: Vec<T>)
    ensures |r.elems| == n
    ensures n <= |v.elems| ==> r.elems == v.elems[..n] && r.cap == v.cap && r.reallocs == v.reallocs
    ensures n > |v.elems| ==> r.elems[..|v.elems|] == v.elems
    ensures n > |v.elems| ==> r.cap == n && r.reallocs == v.reallocs + 1
    ensures Valid(v) ==> Valid(r)
  {
    if n > |v.elems| then
      var g := Reallocate(v, n);
      g.(elems := v.elems + seq(n - |v.elems|, _ => filler))
    else
      v.(elems := v.elems[..n])
  }

  /**
   `resize(n, c)`: grows with copies of `c`, reallocating to exactly `n`
   slots only when `n` exceeds the capacity, or cuts the live prefix to `n`.
   */
  function Resize<T>(v: Vec<T>, n: nat, c: T): (r: Vec<T>)
    ensures |r.elems| == n
    ensures n <= |v.elems| ==> r.elems == v.elems[..n]
    ensures n > |v.elems| ==> r.elems[..|v.elems|] == v.elems
    ensures forall i :: |v.elems| <= i < n ==> r.elems[i] == c
    ensures n > |v.elems| && n > v.cap ==> r.cap == n && r.reallocs == v.reallocs + 1
    ensures !(n > |v.elems| && n > v.cap) ==> r.cap == v.cap && r.reallocs == v.reallocs
    ensures Valid(v) ==> Valid(r)
  {
    if n > |v.elems| then
      var g := if n > v.cap then Reallocate(v, n) else v;
      g.(elems := v.elems + seq(n - |v.elems|, _ => c))
    else
      v.(elems := v.elems[..n])
  }

  /**
   `reserve(n)`: reallocates to exactly `n` slots (no growth multiplier) when
   `n` exceeds the capacity and otherwise leaves the vector entirely alone.
   */
  function Reserve<T>(v: Vec<T>, n: nat): (r: Vec<T>)
    ensures r.elems == v.elems
    ensures n > v.cap ==> r.cap == n && r.reallocs == v.reallocs + 1
    ensures n <= v.cap ==> r == v
    ensures r.cap >= n && r.cap >= v.cap
    ensures Valid(v) ==> Valid(r)
  {
    if n > v.cap then Reallocate(v, n) else v
  }

  /**
   `shrink_to_fit()`: always reallocates, to exactly the size. On an empty
   vector this leaves a capacity of 0.
   */
  function ShrinkToFit<T>(v: Vec<T>): (r: Vec<T>)
    ensures r.elems == v.elems
    ensures r.cap == |r.elems| && r.reallocs == v.reallocs + 1
    ensures Valid(r)
  {
    Reallocate(v, |v.elems|)
  }
}
