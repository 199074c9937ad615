/**
 The abstract state of `rice::vector<T>` (vector.h) and the three private
 helpers every capacity change funnels through.

 A vector is modelled by its live prefix `buffer[0..vec_sz)` (`elems`), its
 number of allocated slots `cap_sz` (`cap`) and its diagnostic counter
 `reallocateCnt` (`reallocs`). The uninitialized slots `[vec_sz, cap_sz)` carry
 no value and are not part of the state. Allocation always succeeds here.

 `size_type` is `unsigned int` in the source; here every count is an unbounded
 `nat`, so `n << 2` is exactly `4 * n`.
 */
module VectorState {

  /** Initial `cap_sz` of a default-constructed vector. */
  const DefaultCapacity: nat := 6

  /** The growth multiplier, written `n << 2` in the source. */
  const GrowthFactor: nat := 4

  datatype Vec<T> = Vec(elems: seq<T>, cap: nat, reallocs: nat)

  /** The class invariant: no more live elements than allocated slots. */
  predicate Valid<T>(v: Vec<T>) {
    |v.elems| <= v.cap
  }

  /** The capacity the growth policy picks for a request of `n` slots. */
  function Grow(n: nat): nat {
    n * GrowthFactor
  }

  /**
   `reallocate()`: a fresh buffer of `newCap` slots (the caller has already
   stored the new `cap_sz`) receives a copy of the live prefix, and the counter
   goes up by one. A `newCap` below the size would overflow the new buffer in
   the source; the model still records it, and only then is the result invalid.
   */
  function Reallocate<T>(v: Vec<T>, newCap: nat): (r: Vec<T>)
    ensures r.elems == v.elems
    ensures r.cap == newCap && r.reallocs == v.reallocs + 1
    ensures Valid(r) <==> |v.elems| <= newCap
  {
    Vec(v.elems, newCap, v.reallocs + 1)
  }

  /**
   `grow_allocate(n)`: used only by constructors, so there is no old buffer to
   copy and the counter is not touched.
   */
  function GrowAllocate<T>(n: nat): (r: Vec<T>)
    ensures r.elems == [] && r.reallocs == 0
    ensures r.cap == 4 * n
    ensures r.cap == 0 <==> n == 0
  {
    Vec([], Grow(n), 0)
  }

  /** `grow_reallocate(n)`: capacity becomes four times `n`, then `reallocate()`. */
  function GrowReallocate<T>(v: Vec<T>, n: nat): (r: Vec<T>)
    ensures r.elems == v.elems
    ensures r.cap == 4 * n && r.reallocs == v.reallocs + 1
    ensures |v.elems| <= n ==> Valid(r)
  {
    Reallocate(v, Grow(n))
  }
}
