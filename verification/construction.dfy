/**
 The constructors of `rice::vector<T>` (vector.h:117-173). Each one yields a
 fresh state whose counter is 0: the member initializer of `reallocateCnt` is
 never overwritten by a constructor.
 */
module Construction {
  import opened VectorState

  /** `vector()`: no elements, the default capacity of 6 slots. */
  function Default<T>(): (r: Vec<T>)
    ensures r.elems == [] && r.reallocs == 0
    ensures r.cap == 6
    ensures Valid(r) && r.cap > 0
  {
    Vec([], DefaultCapacity, 0)
  }

  /**
   `vector(n, value)`: `n` copies of `value` in a buffer four times as large.
   With `n == 0` the capacity is 0, which the growth policy can never leave.
   */
  function Filled<T>(n: nat, value: T): (r: Vec<T>)
    ensures |r.elems| == n
    ensures forall i :: 0 <= i < n ==> r.elems[i] == value
    ensures r.cap == 4 * n && r.reallocs == 0
    ensures Valid(r)
    ensures r.cap == 0 <==> n == 0
  {
    var blank := GrowAllocate<T>(n);
    blank.(elems := seq(n, _ => value))
  }

  /**
   `vector(first, last)`, the range being given by its contents `range`.
   Quirk kept from the source: every slot is filled with `*first`, the first
   element of the range, not with the range itself (vector.h:143). The source
   dereferences `first` even for an empty range; nothing is stored then.
   */
  function FromRange<T>(range: seq<T>): (r: Vec<T>)
    ensures |r.elems| == |range|
    ensures forall i :: 0 <= i < |range| ==> r.elems[i] == range[0]
    ensures r.cap == 4 * |range| && r.reallocs == 0
    ensures Valid(r)
  {
    if |range| == 0 then GrowAllocate(0)
    else Filled(|range|, range[0])
  }

  /** `vector(initializer_list)`: the list, in order, in a buffer four times as large. */
  function FromList<T>(list: seq<T>): (r: Vec<T>)
    ensures r.elems == list
    ensures r.cap == 4 * |list| && r.reallocs == 0
    ensures Valid(r)
  {
    var blank := GrowAllocate<T>(|list|);
    blank.(elems := list)
  }

  /**
   `vector(const vector&)`: a deep copy of the live elements into a buffer of
   the source's capacity (not its size). The counter is not copied.
   */
  function CopyOf<T>(other: Vec<T>): (r: Vec<T>)
    ensures r.elems == other.elems
    ensures r.cap == other.cap && r.reallocs == 0
    ensures Valid(other) ==> Valid(r)
  {
    Vec(other.elems, other.cap, 0)
  }

  /**
   `vector(vector&&)`: despite its signature it deep-copies exactly like the
   copy constructor and leaves the source intact; no ownership is transferred.
   Returns the new vector and the source as it is afterwards.
   */
  function MoveFrom<T>(other: Vec<T>): (r: (Vec<T>, Vec<T>))
    ensures r.0.elems == other.elems && r.0.cap == other.cap && r.0.reallocs == 0
    ensures r.1 == other
  {
    (CopyOf(other), other)
  }
}
