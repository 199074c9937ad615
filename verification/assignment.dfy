/**
 The assignment operators and `assign` overloads of `rice::vector<T>`
 (vector.h:181-252). The operators have no `return` statement in the source,
 so the reference they promise is unspecified; the model returns only the new
 state of the assigned-to vector.
 */
module Assignment {
  import opened VectorState

  /**
   `operator=(const vector&)`: grows to four times the other's size when the
   current capacity is below it, then takes a copy of its live elements.
   */
  function CopyAssign<T>(v: Vec<T>, other: Vec<T>): (r: Vec<T>)
    ensures r.elems == other.elems
    ensures v.cap < |other.elems| ==> r.cap == 4 * |other.elems| && r.reallocs == v.reallocs + 1
    ensures v.cap >= |other.elems| ==> r.cap == v.cap && r.reallocs == v.reallocs
    ensures Valid(r)
  {
    var g := if v.cap < |other.elems| then GrowReallocate(v, |other.elems|) else v;
    g.(elems := other.elems)
  }

  /**
   `operator=(vector&&)`: like the copy assignment, except that the test and
   the growth use the other's capacity; the source is left intact. The
   diagnostic print it emits is not modelled.
   */
  function MoveAssign<T>(v: Vec<T>, other: Vec<T>): (r: Vec<T>)
    ensures r.elems == other.elems
    ensures v.cap < other.cap ==> r.cap == 4 * other.cap && r.reallocs == v.reallocs + 1
    ensures v.cap >= other.cap ==> r.cap == v.cap && r.reallocs == v.reallocs
    ensures Valid(other) ==> Valid(r)
  {
    var g := if v.cap < other.cap then GrowReallocate(v, other.cap) else v;
    g.(elems := other.elems)
  }

  /**
   `operator=(initializer_list)` as written: it grows when needed and copies
   the list into the buffer, but sets the size to 0 and never back, so the
   copied values are not live and the vector ends up empty. This is a defect
   of the source; `AssignList` is the overload that behaves.
   */
  function ListAssign<T>(v: Vec<T>, list: seq<T>): (r: Vec<T>)
    ensures r.elems == []
    ensures v.cap < |list| ==> r.cap == 4 * |list| && r.reallocs == v.reallocs + 1
    ensures v.cap >= |list| ==> r.cap == v.cap && r.reallocs == v.reallocs
    ensures Valid(r)
  {
    var g := if v.cap < |list| then GrowReallocate(v, |list|) else v;
    g.(elems := [])
  }

  /** Shared shape of the three `assign` overloads: grow when `count > cap`, then overwrite. */
  function AssignContents<T>(v: Vec<T>, contents: seq<T>): (r: Vec<T>)
    ensures r.elems == contents
    ensures |contents| > v.cap ==> r.cap == 4 * |contents| && r.reallocs == v.reallocs + 1
    ensures |contents| <= v.cap ==> r.cap == v.cap && r.reallocs == v.reallocs
    ensures Valid(r)
  {
    var g := if |contents| > v.cap then GrowReallocate(v, |contents|) else v;
    g.(elems := contents)
  }

  /** `assign(count, value)`: exactly `count` copies of `value`. */
  function AssignFill<T>(v: Vec<T>, count: nat, value: T): (r: Vec<T>)
    ensures |r.elems| == count
    ensures forall i :: 0 <= i < count ==> r.elems[i] == value
    ensures count > v.cap ==> r.cap == 4 * count && r.reallocs == v.reallocs + 1
    ensures count <= v.cap ==> r.cap == v.cap && r.reallocs == v.reallocs
    ensures Valid(r)
  {
    AssignContents(v, seq(count, _ => value))
  }

  /**
   `assign(first, last)`, the range given by its contents. Unlike the range
   constructor, this overload copies the range element by element.
   */
  function AssignRange<T>(v: Vec<T>, range: seq<T>): (r: Vec<T>)
    ensures r.elems == range
    ensures |range| > v.cap ==> r.cap == 4 * |range| && r.reallocs == v.reallocs + 1
    ensures |range| <= v.cap ==> r.cap == v.cap && r.reallocs == v.reallocs
    ensures Valid(r)
  {
    AssignContents(v, range)
  }

  /**
   `assign(initializer_list)`: the same overload family as `assign(first,
   last)`, the list taking the place of the range.
   */
  function AssignList<T>(v: Vec<T>, list: seq<T>): (r: Vec<T>)
    ensures r == AssignRange(v, list)
    ensures r.elems == list
    ensures Valid(r)
  {
    AssignRange(v, list)
  }
}
