/**
 Properties relating several operations of `rice::vector<T>`: inverse pairs,
 idempotence, the growth policy over repeated appends, the quirks of the
 source, and the one way the class invariant `size <= capacity` breaks.
 */
module Properties {
  import opened VectorState
  import opened Construction
  import opened Assignment
  import opened Capacity
  import opened Access
  import opened Modifiers
  import opened Equality

  // ---------------------------------------------------------------------------
  // Repeated appends and the growth policy
  // ---------------------------------------------------------------------------

  /** `push_back` of each element of `xs` in turn. */
  function PushAll<T>(v: Vec<T>, xs: seq<T>): (r: Vec<T>)
    ensures r.elems == v.elems + xs
    ensures r.cap >= v.cap
    ensures Valid(v) && v.cap > 0 ==> Valid(r) && r.cap > 0
    decreases |xs|
  {
    if xs == [] then v
    else
      assert v.elems + [xs[0]] + xs[1..] == v.elems + xs;
      PushAll(PushBack(v, xs[0]), xs[1..])
  }

  /** Appends that fit in the current capacity never reallocate. */
  lemma {:induction false} PushAllWithinCapacity<T>(v: Vec<T>, xs: seq<T>)
    requires |v.elems| + |xs| <= v.cap
    ensures PushAll(v, xs).cap == v.cap
    ensures PushAll(v, xs).reallocs == v.reallocs
    decreases |xs|
  {
    if xs != [] {
      PushAllWithinCapacity(PushBack(v, xs[0]), xs[1..]);
    }
  }

  /**
   A default vector takes six appends without reallocating; the seventh finds
   it full and grows it to 24 slots, the counter becoming 1.
   */
  lemma DefaultGrowsOnSeventhPush<T>(xs: seq<T>, y: T)
    requires |xs| == 6
    ensures PushAll(Default(), xs).cap == 6 && PushAll(Default(), xs).reallocs == 0
    ensures PushBack(PushAll(Default(), xs), y).elems == xs + [y]
    ensures PushBack(PushAll(Default(), xs), y).cap == 24
    ensures PushBack(PushAll(Default(), xs), y).reallocs == 1
  {
    PushAllWithinCapacity(Default(), xs);
  }

  // ---------------------------------------------------------------------------
  // The zero-capacity hole in `size <= capacity`
  // ---------------------------------------------------------------------------

  /**
   On a valid vector, `push_back` keeps the invariant exactly when the
   capacity is not 0: at capacity 0 the growth `0 << 2` is 0 again and the
   element lands past the end of the buffer.
   */
  lemma PushBackValidIff<T>(v: Vec<T>, value: T)
    requires Valid(v)
    ensures Valid(PushBack(v, value)) <==> v.cap > 0
  {
  }

  /** The same hole through the one-element `insert` and `emplace`. */
  lemma InsertValidIff<T>(v: Vec<T>, pos: nat, value: T)
    requires Valid(v) && pos <= |v.elems|
    ensures Valid(Insert(v, pos, value).vec) <==> v.cap > 0
    ensures Valid(Emplace(v, pos, value).vec) <==> v.cap > 0
  {
  }

  /**
   Valid vectors of capacity 0 are reachable: `vector(0, value)`, an empty
   range or initializer list, and `shrink_to_fit` on an empty vector.
   */
  lemma ZeroCapacityReachable<T>(value: T, v: Vec<T>)
    ensures Valid(Filled(0, value)) && Filled(0, value).cap == 0
    ensures Valid(FromRange<T>([])) && FromRange<T>([]).cap == 0
    ensures Valid(FromList<T>([])) && FromList<T>([]).cap == 0
    ensures Valid(ShrinkToFit(Clear(v))) && ShrinkToFit(Clear(v)).cap == 0
  {
  }

  /** From `vector(0, value)`, a single `push_back` already breaks the invariant. */
  lemma ZeroSizedThenPushBreaksInvariant<T>(value: T, x: T)
    ensures Valid(Filled(0, value))
    ensures !Valid(PushBack(Filled(0, value), x))
  {
  }

  // ---------------------------------------------------------------------------
  // Inverse pairs
  // ---------------------------------------------------------------------------

  /** `pop_back` undoes `push_back`. */
  lemma PushThenPop<T>(v: Vec<T>, value: T)
    ensures PopBack(PushBack(v, value)).elems == v.elems
    ensures Back(PushBack(v, value)) == value
  {
  }

  /** Inserting one element and erasing it again restores the elements. */
  lemma InsertThenErase<T>(v: Vec<T>, pos: nat, value: T)
    requires pos <= |v.elems|
    ensures Insert(v, pos, value).vec.elems[pos] == value
    ensures Erase(Insert(v, pos, value).vec, pos).vec.elems == v.elems
  {
  }

  /** Erasing an element and inserting the same value at the same position restores the elements. */
  lemma EraseThenInsert<T>(v: Vec<T>, pos: nat)
    requires pos < |v.elems|
    ensures Insert(Erase(v, pos).vec, pos, v.elems[pos]).vec.elems == v.elems
  {
  }

  /** Erasing the `count` slots a counted `insert` filled restores the elements. */
  lemma InsertCountThenEraseRange<T>(v: Vec<T>, pos: nat, count: nat, value: T)
    requires pos <= |v.elems|
    ensures EraseRange(InsertCount(v, pos, count, value).vec, pos, pos + count).vec.elems == v.elems
  {
  }

  /** Erasing the slots a range `insert` filled restores the elements. */
  lemma InsertRangeThenEraseRange<T>(v: Vec<T>, pos: nat, range: seq<T>)
    requires pos <= |v.elems|
    ensures EraseRange(InsertRange(v, pos, range).vec, pos, pos + |range|).vec.elems == v.elems
  {
  }

  /** The one-element `insert` shifts every element from `pos` on up by one slot. */
  lemma InsertShiftsTail<T>(v: Vec<T>, pos: nat, value: T)
    requires pos <= |v.elems|
    ensures forall j :: 0 <= j < pos ==> Insert(v, pos, value).vec.elems[j] == v.elems[j]
    ensures forall j :: pos < j <= |v.elems| ==> Insert(v, pos, value).vec.elems[j] == v.elems[j - 1]
  {
  }

  /** Growing with `resize(n, c)` and resizing back to the old size restores the elements. */
  lemma ResizeThenResizeBack<T>(v: Vec<T>, n: nat, c: T)
    requires n >= |v.elems|
    ensures Resize(Resize(v, n, c), |v.elems|, c).elems == v.elems
  {
  }

  /** `swap` applied twice gives both vectors back. */
  lemma SwapTwice<T>(a: Vec<T>, b: Vec<T>)
    ensures Swap(Swap(a, b).0, Swap(a, b).1) == (a, b)
  {
  }

  // ---------------------------------------------------------------------------
  // Idempotence of the capacity operations
  // ---------------------------------------------------------------------------

  /** A second `reserve(n)` changes nothing; the capacity is the larger of the old one and `n`. */
  lemma ReserveIdempotent<T>(v: Vec<T>, n: nat)
    ensures Reserve(Reserve(v, n), n) == Reserve(v, n)
    ensures Reserve(v, n).cap == if n > v.cap then n else v.cap
  {
  }

  /** A second `shrink_to_fit` keeps elements and capacity but still reallocates. */
  lemma ShrinkToFitTwice<T>(v: Vec<T>)
    ensures ShrinkToFit(ShrinkToFit(v)).elems == v.elems
    ensures ShrinkToFit(ShrinkToFit(v)).cap == ShrinkToFit(v).cap == |v.elems|
    ensures ShrinkToFit(ShrinkToFit(v)).reallocs == v.reallocs + 2
  {
  }

  /** `clear` on a cleared vector changes nothing. */
  lemma ClearIdempotent<T>(v: Vec<T>)
    ensures Clear(Clear(v)) == Clear(v)
    ensures Empty(Clear(v))
  {
  }

  // ---------------------------------------------------------------------------
  // Quirks of the source
  // ---------------------------------------------------------------------------

  /**
   The range constructor reproduces its range exactly when all the range's
   elements equal the first one.
   */
  lemma RangeConstructorFaithfulIff<T>(range: seq<T>)
    ensures FromRange(range).elems == range <==> forall i :: 0 <= i < |range| ==> range[i] == range[0]
  {
  }

  /** `assign(first, last)` copies the range that the range constructor does not. */
  lemma AssignRangeCopiesRange<T>(v: Vec<T>, range: seq<T>)
    ensures AssignRange(v, range).elems == range
    ensures (FromRange(range).elems == AssignRange(v, range).elems) <==>
            (forall i :: 0 <= i < |range| ==> range[i] == range[0])
  {
  }

  /**
   `resize(n)` without a value can lower the capacity: growing a default
   vector to one element leaves one slot instead of six.
   */
  lemma ResizeUnfilledShrinksCapacity<T>(v: Vec<T>, n: nat, filler: T)
    requires |v.elems| < n < v.cap
    ensures ResizeUnfilled(v, n, filler).cap < v.cap
    ensures ResizeUnfilled(Default(), 1, filler).cap == 1 < Default<T>().cap
  {
  }

  /**
   `operator=(initializer_list)` loses the list: the vector is empty afterwards,
   whereas `assign(initializer_list)` stores it, with the same capacity.
   */
  lemma ListAssignDropsList<T>(v: Vec<T>, list: seq<T>)
    requires |list| > 0
    ensures ListAssign(v, list).elems != AssignList(v, list).elems
    ensures ListAssign(v, list).cap == AssignList(v, list).cap
  {
  }

  /** The move constructor behaves exactly like the copy constructor and keeps its source. */
  lemma MoveIsCopy<T>(v: Vec<T>)
    ensures MoveFrom(v).0 == CopyOf(v)
    ensures MoveFrom(v).1 == v
    ensures MoveAssign(Default(), v).elems == CopyAssign(Default(), v).elems
  {
  }

  // ---------------------------------------------------------------------------
  // Access and equality
  // ---------------------------------------------------------------------------

  /**
   `at` agrees with `operator[]` inside the live prefix and signals
   out-of-range at `size()` and beyond.
   */
  lemma AtAgreesWithIndex<T>(v: Vec<T>, pos: nat)
    ensures pos < |v.elems| ==> At(v, pos) == Found(Index(v, pos))
    ensures At(v, |v.elems|).OutOfRange? && At(v, |v.elems| + 1).OutOfRange?
    ensures |v.elems| > 0 ==> At(v, |v.elems| - 1) == Found(Back(v))
  {
  }

  /**
   Two vectors built from the same list are equal, whatever their capacities;
   appending to one of them makes them unequal.
   */
  lemma EqualityOfLists<T>(list: seq<T>, cap: nat, x: T)
    ensures SameElements(FromList(list), FromList(list))
    ensures SameElements(FromList(list), Reserve(FromList(list), cap))
    ensures !SameElements(PushBack(FromList(list), x), FromList(list))
  {
  }

  /** A copy is equal to its source, whichever constructor or assignment made it. */
  lemma CopiesAreEqual<T>(v: Vec<T>, w: Vec<T>)
    ensures SameElements(CopyOf(v), v)
    ensures SameElements(CopyAssign(w, v), v)
    ensures SameElements(MoveAssign(w, v), v)
  {
  }

  /**
   The walk-through: `{1, 2, 3}`, then `push_back(4)`, `erase(begin() + 1)`,
   `insert(begin(), 0)`.
   */
  lemma Walkthrough()
    ensures var v := FromList([1, 2, 3]);
            && Size(v) == 3 && Index(v, 0) == 1 && Index(v, 2) == 3
            && var p := PushBack(v, 4);
            && Size(p) == 4 && Back(p) == 4
            && var e := Erase(p, 1).vec;
            && e.elems == [1, 3, 4]
            && Insert(e, 0, 0).vec.elems == [0, 1, 3, 4]
  {
  }
}
