/**
 Element access of `rice::vector<T>` (vector.h:427-479). `operator[]`,
 `front` and `back` do no checking, so an in-range index or a non-empty
 vector is their caller's obligation; `at` checks and signals the error.
 None of them changes the vector.
 */
module Access {
  import opened VectorState

  /** Outcome of the checked access: the element, or the `std::out_of_range` it throws. */
  datatype Checked<T> = Found(value: T) | OutOfRange(message: string)

  /** `operator[](index)`: for an index in range, what the checked `at` finds there. */
  function Index<T>(v: Vec<T>, index: nat): (x: T)
    requires index < |v.elems|
    ensures At(v, index) == Found(x)
  {
    v.elems[index]
  }

  /** `at(pos)`: the element when `pos < size()`, the out-of-range error otherwise. */
  function At<T>(v: Vec<T>, pos: nat): (r: Checked<T>)
    ensures r.Found? <==> pos < |v.elems|
    ensures r.Found? ==> r.value == v.elems[pos]
    ensures r.OutOfRange? ==> r.message == "Position not in element range"
  {
    if pos < |v.elems| then Found(v.elems[pos])
    else OutOfRange("Position not in element range")
  }

  /** `front()`: the element at index 0. */
  function Front<T>(v: Vec<T>): (x: T)
    requires |v.elems| > 0
    ensures x == Index(v, 0)
  {
    v.elems[0]
  }

  /** `back()`: the element at index `size() - 1`. */
  function Back<T>(v: Vec<T>): (x: T)
    requires |v.elems| > 0
    ensures x == Index(v, |v.elems| - 1)
  {
    v.elems[|v.elems| - 1]
  }
}
