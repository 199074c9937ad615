/**
 The modifiers of `rice::vector<T>` (vector.h:499-677): appending and popping,
 every `insert`/`emplace` overload, both `erase` overloads, `swap` and `clear`.

 Iterators are indices into the live prefix. The source takes or rebuilds
 several iterators at the wrong moment; the model follows what the code
 evidently means and records each slip where it occurs:
 - the counted and range `insert` overloads take `f` from the old buffer and
   then may reallocate (vector.h:578 then 582, vector.h:594 then 599), so
   after growth `f` points into freed memory;
 - `emplace` and the initializer-list `insert` compute `pos - buffer` after
   a reallocation, against the new buffer (vector.h:537, vector.h:615);
 - every right shift uses `std::uninitialized_move` forwards over
   overlapping ranges (vector.h:538, 554, 569, 583, 600, 619); the module
   `Buffer` models that move and the backward one the model relies on.
 */
module Modifiers {
  import opened VectorState

  /** A new state together with the position (iterator) an operation returns. */
  datatype Edited<T> = Edited(vec: Vec<T>, pos: nat)

  /**
   Growth step of the one-element operations: when full, capacity becomes four
   times the current capacity. From a capacity of 0 this gives 0 again.
   */
  function GrowIfFull<T>(v: Vec<T>): Vec<T> {
    if |v.elems| == v.cap then GrowReallocate(v, v.cap) else v
  }

  /** Growth step of the multi-element inserts: exactly four times the needed size. */
  function GrowToFit<T>(v: Vec<T>, count: nat): Vec<T> {
    if |v.elems| + count > v.cap then GrowReallocate(v, |v.elems| + count) else v
  }

  /** Shift the tail from `pos` right and write `vals` into the gap. */
  function Splice<T>(v: Vec<T>, pos: nat, vals: seq<T>): Vec<T>
    requires pos <= |v.elems|
  {
    v.(elems := v.elems[..pos] + vals + v.elems[pos..])
  }

  /** Remove the live elements in `[first, last)`, closing the gap. */
  function Cut<T>(v: Vec<T>, first: nat, last: nat): Vec<T>
    requires first <= last <= |v.elems|
  {
    v.(elems := v.elems[..first] + v.elems[last..])
  }

  /**
   `push_back(value)` (both overloads): appends `value`; a full vector first
   grows to four times its capacity. When the capacity is 0 the growth yields 0
   and the element is written past the end of the buffer (vector.h:511-513),
   which is why validity is only promised for a non-zero capacity.
   */
  function PushBack<T>(v: Vec<T>, value: T): (r: Vec<T>)
    ensures r.elems == v.elems + [value]
    ensures |v.elems| == v.cap ==> r.cap == 4 * v.cap && r.reallocs == v.reallocs + 1
    ensures |v.elems| != v.cap ==> r.cap == v.cap && r.reallocs == v.reallocs
    ensures Valid(v) && v.cap > 0 ==> Valid(r) && r.cap > 0
  {
    var g := GrowIfFull(v);
    g.(elems := g.elems + [value])
  }

  /**
   `emplace_back(args...)`, with `value` the element built from `args`: the
   same overload family as `push_back`, with the same growth and placement.
   */
  function EmplaceBack<T>(v: Vec<T>, value: T): (r: Vec<T>)
    ensures r == PushBack(v, value)
    ensures r.elems == v.elems + [value]
    ensures Valid(v) && v.cap > 0 ==> Valid(r) && r.cap > 0
  {
    PushBack(v, value)
  }

  /**
   `pop_back()`: drops the last element; the vector must not be empty. The
   source destroys `buffer + vec_sz--`, i.e. the slot one past the last live
   element, not the last element itself; only the live prefix is modelled.
   */
  function PopBack<T>(v: Vec<T>): (r: Vec<T>)
    requires |v.elems| > 0
    ensures r.elems + [v.elems[|v.elems| - 1]] == v.elems
    ensures r.cap == v.cap && r.reallocs == v.reallocs
    ensures Valid(v) ==> Valid(r)
  {
    v.(elems := v.elems[..|v.elems| - 1])
  }

  /**
   `insert(pos, value)` (both the copying and the moving overload): grows
   like `push_back` when full, then puts `value` at `pos`; returns `pos`.
   */
  function Insert<T>(v: Vec<T>, pos: nat, value: T): (r: Edited<T>)
    requires pos <= |v.elems|
    ensures r.vec.elems == v.elems[..pos] + [value] + v.elems[pos..]
    ensures r.pos == pos
    ensures |v.elems| == v.cap ==> r.vec.cap == 4 * v.cap && r.vec.reallocs == v.reallocs + 1
    ensures |v.elems| != v.cap ==> r.vec.cap == v.cap && r.vec.reallocs == v.reallocs
    ensures Valid(v) && v.cap > 0 ==> Valid(r.vec) && r.vec.cap > 0
  {
    Edited(Splice(GrowIfFull(v), pos, [value]), pos)
  }

  /**
   `emplace(pos, args...)`, with `value` the element built from `args`: the
   same effect as the one-element `insert` (up to the iterator slip noted above).
   */
  function Emplace<T>(v: Vec<T>, pos: nat, value: T): (r: Edited<T>)
    requires pos <= |v.elems|
    ensures r == Insert(v, pos, value)
    ensures r.vec.elems == v.elems[..pos] + [value] + v.elems[pos..]
    ensures r.pos == pos
    ensures Valid(v) && v.cap > 0 ==> Valid(r.vec) && r.vec.cap > 0
  {
    Insert(v, pos, value)
  }

  /**
   `insert(pos, count, value)`: a zero count returns at once without touching
   the vector; otherwise it grows to four times `size + count` when that
   exceeds the capacity, then puts `count` copies of `value` at `pos`.
   */
  function InsertCount<T>(v: Vec<T>, pos: nat, count: nat, value: T): (r: Edited<T>)
    requires pos <= |v.elems|
    ensures |r.vec.elems| == |v.elems| + count
    ensures r.vec.elems[..pos] == v.elems[..pos]
    ensures forall i :: pos <= i < pos + count ==> r.vec.elems[i] == value
    ensures r.vec.elems[pos + count..] == v.elems[pos..]
    ensures r.pos == pos
    ensures count == 0 ==> r.vec == v
    ensures count > 0 && |v.elems| + count > v.cap ==>
              r.vec.cap == 4 * (|v.elems| + count) && r.vec.reallocs == v.reallocs + 1
    ensures count == 0 || |v.elems| + count <= v.cap ==>
              r.vec.cap == v.cap && r.vec.reallocs == v.reallocs
    ensures count > 0 || Valid(v) ==> Valid(r.vec)
  {
    if count == 0 then Edited(v, pos)
    else Edited(Splice(GrowToFit(v, count), pos, seq(count, _ => value)), pos)
  }

  /**
   `insert(pos, first, last)`, the range given by its contents: like the
   counted overload, with the range's elements in order.
   */
  function InsertRange<T>(v: Vec<T>, pos: nat, range: seq<T>): (r: Edited<T>)
    requires pos <= |v.elems|
    ensures r.vec.elems == v.elems[..pos] + range + v.elems[pos..]
    ensures r.pos == pos
    ensures |range| == 0 ==> r.vec == v
    ensures |range| > 0 && |v.elems| + |range| > v.cap ==>
              r.vec.cap == 4 * (|v.elems| + |range|) && r.vec.reallocs == v.reallocs + 1
    ensures |range| == 0 || |v.elems| + |range| <= v.cap ==>
              r.vec.cap == v.cap && r.vec.reallocs == v.reallocs
    ensures |range| > 0 || Valid(v) ==> Valid(r.vec)
  {
    if |range| == 0 then Edited(v, pos)
    else Edited(Splice(GrowToFit(v, |range|), pos, range), pos)
  }

  /**
   `insert(pos, initializer_list)`: the capacity test comes before the test
   for an empty list here, so on a valid vector an empty list changes nothing,
   while on an invalid one (size above capacity) even an empty list grows it.
   The index is the intended one: the source computes `pos - buffer` only
   after `grow_reallocate`, against the new buffer (vector.h:615).
   */
  function InsertList<T>(v: Vec<T>, pos: nat, list: seq<T>): (r: Edited<T>)
    requires pos <= |v.elems|
    ensures r.vec.elems == v.elems[..pos] + list + v.elems[pos..]
    ensures r.pos == pos
    ensures |v.elems| + |list| > v.cap ==>
              r.vec.cap == 4 * (|v.elems| + |list|) && r.vec.reallocs == v.reallocs + 1
    ensures |v.elems| + |list| <= v.cap ==> r.vec.cap == v.cap && r.vec.reallocs == v.reallocs
    ensures Valid(r.vec)
    ensures Valid(v) && |list| == 0 ==> r.vec == v
  {
    var g := GrowToFit(v, |list|);
    if |list| == 0 then Edited(g, pos) else Edited(Splice(g, pos, list), pos)
  }

  /** `erase(pos)`: removes the element at `pos`; returns `pos`. Capacity and counter stay. */
  function Erase<T>(v: Vec<T>, pos: nat): (r: Edited<T>)
    requires pos < |v.elems|
    ensures r.vec.elems == v.elems[..pos] + v.elems[pos + 1..]
    ensures r.pos == pos
    ensures r.vec.cap == v.cap && r.vec.reallocs == v.reallocs
    ensures Valid(v) ==> Valid(r.vec)
  {
    Edited(Cut(v, pos, pos + 1), pos)
  }

  /**
   `erase(first, last)`: removes `[first, last)`, a no-op when the range is
   empty; returns `first`. Capacity and counter stay.
   */
  function EraseRange<T>(v: Vec<T>, first: nat, last: nat): (r: Edited<T>)
    requires first <= last <= |v.elems|
    ensures r.vec.elems == v.elems[..first] + v.elems[last..]
    ensures r.pos == first
    ensures first == last ==> r.vec == v
    ensures r.vec.cap == v.cap && r.vec.reallocs == v.reallocs
    ensures Valid(v) ==> Valid(r.vec)
  {
    if first == last then Edited(v, first)
    else Edited(Cut(v, first, last), first)
  }

  /** `clear()`: no live elements left; capacity and counter stay. */
  function Clear<T>(v: Vec<T>): (r: Vec<T>)
    ensures r.elems == [] && Valid(r)
    ensures r.cap == v.cap && r.reallocs == v.reallocs
  {
    Cut(v, 0, |v.elems|)
  }

  /**
   `swap(other)`, as evidently intended: the two vectors exchange their live
   elements and capacities. The source assigns `vec_sz` twice, never exchanges
   `cap_sz`, and stores the old capacity into `rhs.vec_sz` (vector.h:662-667).
   The counters are not exchanged by the source and are not here either.
   */
  function Swap<T>(a: Vec<T>, b: Vec<T>): (r: (Vec<T>, Vec<T>))
    ensures r.0.elems == b.elems && r.0.cap == b.cap && r.0.reallocs == a.reallocs
    ensures r.1.elems == a.elems && r.1.cap == a.cap && r.1.reallocs == b.reallocs
    ensures Valid(a) && Valid(b) ==> Valid(r.0) && Valid(r.1)
  {
    (a.(elems := b.elems, cap := b.cap), b.(elems := a.elems, cap := a.cap))
  }
}
