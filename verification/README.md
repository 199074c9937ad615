# rice::vector<T> in Dafny

A model of `rice::vector<T>` (vector.h), a hand-written clone of
`std::vector`. The vector is reduced to its abstract state: the live prefix
`buffer[0..vec_sz)`, written `elems`; the number of allocated slots `cap_sz`,
written `cap`; and the diagnostic counter `reallocateCnt`, written `reallocs`.
The class invariant `size <= capacity` is the predicate `VectorState.Valid`.

Every public operation is a pure function from the old state to the new one.
Iterators become indices, and operations that return an iterator return the
new state together with that index (`Modifiers.Edited`). The growth policy is
modelled as the source writes it:
- a default vector starts with 6 slots;
- the sized, range and list constructors and `assign` allocate `4 * n` slots;
- one-element appends and inserts grow a full vector to `4 * capacity`;
- multi-element inserts grow to `4 * (size + count)` when needed;
- `reserve`, `resize` and `shrink_to_fit` allocate exactly what they are asked for.

Every reallocation raises the counter by one. Constructors start the counter at 0.

Operations do not require `Valid`. This lets the model show the one way the
invariant breaks. Capacity 0 is reachable in three ways: `vector(0, v)`, an
empty range or initializer list, and `shrink_to_fit` on an empty vector. From
capacity 0, the growth `0 << 2` yields 0 again, and the next `push_back`,
`insert` or `emplace` of one element writes past the buffer.
`Properties.PushBackValidIff` proves that, on a valid vector, `push_back` keeps
the invariant exactly when the capacity is non-zero.

The module `Buffer` models the raw storage slot by slot. It contains the
moves and write loops the source performs. It also contains in-place
algorithms for `insert`, `push_back` and `erase`, each proved to leave the
storage holding the abstract result.

Quirks kept as the source has them, each commented at its definition:
- the range constructor fills every slot with the first element of the range;
- `resize(n)` reallocates to exactly `n` slots whenever it grows, even when
  that lowers the capacity;
- `operator=(initializer_list)` leaves the vector empty;
- the move constructor and move assignment deep-copy and leave their source intact.

Files: `state.dfy` (state, invariant, reallocation helpers),
`construction.dfy`, `assignment.dfy`, `capacity.dfy`, `access.dfy`,
`modifiers.dfy`, `equality.dfy`, `buffer.dfy`, `properties.dfy`.

## Model

| member | source | states |
|---|---|---|
| VectorState.Reallocate | vector.h:302-317 | the live elements are kept in order, the capacity becomes the requested one, the counter rises by exactly 1; the result is valid iff the new capacity holds the size |
| VectorState.GrowAllocate | vector.h:319-331 | a constructor's buffer has `4 * n` slots, no live elements, counter 0; capacity is 0 iff `n` is 0 |
| VectorState.GrowReallocate | vector.h:339-344 | elements kept, capacity `4 * n`, counter +1; valid whenever `n` covers the size |
| Construction.Default | vector.h:107-128 | no elements, capacity 6, counter 0, valid with non-zero capacity |
| Construction.Filled | vector.h:130-136 | `n` copies of the value, capacity `4 * n`, counter 0, valid; capacity 0 exactly when `n` is 0 |
| Construction.FromRange | vector.h:138-145 | as many elements as the range, each equal to the range's first element; capacity four times the range's length |
| Construction.FromList | vector.h:147-153 | the list's elements in order, capacity four times the list's length, counter 0 |
| Construction.CopyOf | vector.h:155-163 | the other's live elements and its capacity (not its size), counter 0; valid if the other is |
| Construction.MoveFrom | vector.h:165-173 | same elements and capacity as the source, and the source is returned unchanged (no ownership transfer) |
| Assignment.CopyAssign | vector.h:181-193 | elements become the other's; grows to `4 * other.size` with one reallocation only when capacity was below the other's size; always valid afterwards |
| Assignment.MoveAssign | vector.h:195-208 | elements become the other's; grows to `4 * other.capacity` only when capacity was below the other's capacity; valid when the other is |
| Assignment.ListAssign | vector.h:210-219 | as written: grows like the other assignments but leaves no live element |
| Assignment.AssignFill | vector.h:221-229 | exactly `count` copies of the value; reallocates to `4 * count` only when `count` exceeds the capacity; always valid |
| Assignment.AssignRange | vector.h:231-240 | the range's elements in order; reallocates to four times the range's length only when the range exceeds the capacity |
| Assignment.AssignList | vector.h:242-252 | same overload family as `assign(first, last)`: the result is `AssignRange` of the list, whose elements are the list in order |
| Capacity.Empty | vector.h:346-350 | true iff there are no live elements |
| Capacity.Size | vector.h:352-356 | the number of live elements, within the capacity on a valid vector |
| Capacity.Capacity | vector.h:364-368 | the number of allocated slots; the vector is valid iff it is at least the size |
| Capacity.ReallocateCount | vector.h:333-337 | the reallocation counter |
| Capacity.ResizeUnfilled | vector.h:370-387 | length becomes `n` and the kept prefix is unchanged; growing always reallocates to exactly `n` slots; shrinking keeps capacity and counter |
| Capacity.Resize | vector.h:389-408 | length `n`; shrinking keeps the first `n` elements; growing keeps all old elements and fills the new slots with `c`; reallocates to exactly `n` only when `n` exceeds both size and capacity; keeps validity |
| Capacity.Reserve | vector.h:410-418 | elements kept; `n > capacity` gives capacity exactly `n` and counter +1; otherwise the vector is unchanged; capacity never drops below `n` or the old capacity |
| Capacity.ShrinkToFit | vector.h:420-425 | elements kept, capacity equals the size, counter +1 every time, always valid |
| Access.Index | vector.h:427-437 | for an in-range index (the caller's obligation), the unchecked access returns exactly what the checked `at` finds there |
| Access.At | vector.h:439-455 | yields an element iff `pos < size`, that element being the one at `pos`; otherwise the out-of-range error with the source's message |
| Access.Front | vector.h:457-467 | on a non-empty vector, the element at index 0 |
| Access.Back | vector.h:469-479 | on a non-empty vector, the element at index `size - 1` |
| Modifiers.PushBack | vector.h:508-522 | elements become `old + [value]`; when full, capacity becomes `4 * capacity` and counter +1, otherwise both unchanged; validity is kept when capacity is non-zero |
| Modifiers.EmplaceBack | vector.h:499-506 | same overload family as `push_back`: the result is `PushBack` of the constructed element, which is appended |
| Modifiers.PopBack | vector.h:524-528 | on a non-empty vector, the elements lose exactly their last one; capacity and counter stay |
| Modifiers.Insert | vector.h:546-573 | elements become `old[..pos] + [value] + old[pos..]`, position `pos` returned; grows to `4 * capacity` only when full |
| Modifiers.Emplace | vector.h:530-544 | same overload family as the one-element `insert`: the result is `Insert` of the constructed element, spliced in at `pos` |
| Modifiers.InsertCount | vector.h:575-588 | `count` copies of the value spliced in at `pos`, rest kept in order, `pos` returned; `count == 0` changes nothing; grows to `4 * (size + count)` only when that exceeds the capacity |
| Modifiers.InsertRange | vector.h:590-605 | elements become `old[..pos] + range + old[pos..]`, `pos` returned; empty range changes nothing; grows to `4 * (size + k)` only when needed |
| Modifiers.InsertList | vector.h:607-628 | elements become `old[..pos] + list + old[pos..]`, `pos` returned; growth test before the empty test; always valid afterwards |
| Modifiers.Erase | vector.h:630-639 | elements become `old[..pos] + old[pos + 1..]`, `pos` returned; capacity and counter stay |
| Modifiers.EraseRange | vector.h:641-653 | elements become `old[..first] + old[last..]`, `first` returned; `first == last` changes nothing; capacity and counter stay |
| Modifiers.Clear | vector.h:671-677 | no live elements; capacity and counter stay |
| Modifiers.Swap | vector.h:655-669 | the intended exchange of elements and capacities; each keeps its own counter; keeps validity of both |
| Equality.Equal | vector.h:679-688 | the early-exit loop returns true iff sizes match and every index holds equal elements, i.e. iff the live prefixes are equal |
| Equality.NotEqual | vector.h:690-699 | its own loop returns exactly the negation of `==` |
| Buffer.ReallocateBuffer | vector.h:306-311 | the new buffer has the new capacity and starts with the old live prefix |
| Buffer.MoveRightForward | vector.h:553-556 | the forward move over overlapping slots leaves each destination slot equal to the slot `k` before it |
| Buffer.ForwardMoveRepeats | vector.h:553-556 | with two distinct elements at `pos` and `pos + 1`, the forward move is not a right shift |
| Buffer.MoveRightBackward | vector.h:553-556 | the corrected move shifts the slots `[from, size)` right by `k` and leaves all other slots alone |
| Buffer.WriteRun | vector.h:601-602 | the write loop stores the values in order from the given slot and touches nothing else |
| Buffer.MoveLeft | vector.h:647-649 | the left move of `erase` brings slots `[last, size)` down to `first` in order, prefix untouched |
| Buffer.InsertInPlace | vector.h:590-605 | grow, shift and write on the storage leave it holding exactly the abstract `InsertRange` result |
| Buffer.PushBackInPlace | vector.h:508-514 | with non-zero capacity, the in-place append leaves the storage holding the abstract `PushBack` result |
| Buffer.EraseInPlace | vector.h:641-653 | the left move on the storage leaves it holding exactly the abstract `EraseRange` result |
| Properties.PushAll | vector.h:508-514 | pushing a sequence appends it in order; capacity never decreases; validity with non-zero capacity is kept |
| Properties.PushAllWithinCapacity | vector.h:509-513 | appends that fit never change capacity or counter |
| Properties.DefaultGrowsOnSeventhPush | vector.h:339-344 | six appends to a default vector do not reallocate; the seventh gives capacity 24 and counter 1 |
| Properties.PushBackValidIff | vector.h:509-514 | on a valid vector, `push_back` keeps the invariant iff the capacity is non-zero |
| Properties.InsertValidIff | vector.h:546-559 | the same for the one-element `insert` and `emplace` |
| Properties.ZeroCapacityReachable | vector.h:130-136 | `vector(0, v)`, an empty range or list, and `shrink_to_fit` on an empty vector give valid vectors of capacity 0 |
| Properties.ZeroSizedThenPushBreaksInvariant | vector.h:511-513 | one `push_back` on `vector(0, v)` breaks `size <= capacity` |
| Properties.PushThenPop | vector.h:524-528 | `pop_back` undoes `push_back`, and `back()` after `push_back` is the pushed value |
| Properties.InsertThenErase | vector.h:630-639 | erasing the inserted element restores the elements |
| Properties.EraseThenInsert | vector.h:546-559 | re-inserting an erased value at its position restores the elements |
| Properties.InsertCountThenEraseRange | vector.h:575-588 | erasing the `count` inserted slots restores the elements |
| Properties.InsertRangeThenEraseRange | vector.h:590-605 | erasing the inserted range restores the elements |
| Properties.InsertShiftsTail | vector.h:553-556 | for the corrected one-element `insert` (see Findings): elements before `pos` stay put, elements from `pos` on move up by one |
| Properties.ResizeThenResizeBack | vector.h:389-408 | growing with `resize(n, c)` and resizing back restores the elements |
| Properties.SwapTwice | vector.h:655-669 | the intended `swap` is an involution |
| Properties.ReserveIdempotent | vector.h:410-418 | `reserve(n)` twice equals once; capacity is the larger of old capacity and `n` |
| Properties.ShrinkToFitTwice | vector.h:420-425 | a second `shrink_to_fit` keeps elements and capacity but still raises the counter |
| Properties.ClearIdempotent | vector.h:671-677 | `clear` twice equals once, and the result is empty |
| Properties.RangeConstructorFaithfulIff | vector.h:138-145 | the range constructor reproduces its range iff all its elements equal the first |
| Properties.AssignRangeCopiesRange | vector.h:231-240 | `assign(first, last)` stores the range, and agrees with the range constructor only on uniform ranges |
| Properties.ResizeUnfilledShrinksCapacity | vector.h:373-379 | growing with `resize(n)` below the capacity lowers the capacity; a default vector resized to 1 has capacity 1 |
| Properties.ListAssignDropsList | vector.h:210-219 | for a non-empty list, `operator=(list)` and `assign(list)` differ in elements but agree in capacity |
| Properties.MoveIsCopy | vector.h:165-173 | move construction equals copy construction and keeps its source; move and copy assignment store the same elements |
| Properties.AtAgreesWithIndex | vector.h:439-455 | `at` equals `operator[]` in range, fails at `size` and `size + 1`, and at `size - 1` gives `back()` |
| Properties.EqualityOfLists | vector.h:679-688 | vectors from the same list are equal whatever their capacities, and appending to one makes them unequal |
| Properties.CopiesAreEqual | vector.h:155-163 | copy construction, copy assignment and move assignment all produce a vector equal to the source |
| Properties.Walkthrough | vector.h:630-639 | `{1,2,3}`, `push_back(4)`, `erase(begin()+1)`, `insert(begin(), 0)` give `{1,3,4}` then `{0,1,3,4}` |

## Findings

| source | as written | input that shows it | evidently intended | confidence | as-written member | corrected member |
|---|---|---|---|---|---|---|
| vector.h:553-556 | every right shift moves the tail with a forward element-by-element move whose destination overlaps the slots not yet read (also lines 538, 569, 583, 600, 619) | `insert(begin(), x)` on `{a, b}` with `a != b`, for an element type the library moves one element at a time: the tail is not `a, b` (copying values, the model gives `{x, a, a}`) | the tail shifted right: `{x, a, b}` | medium: libraries that turn the move into a block copy for trivially copyable types shift correctly | Buffer.MoveRightForward | Buffer.MoveRightBackward |

`Buffer.ForwardMoveRepeats` exhibits the discrepancy. `Buffer.InsertInPlace`
uses the corrected backward move and is proved to realise `Modifiers.InsertRange`.

## Left out

- Allocation failure: the `std::cerr` reports in the constructors and in `reallocate` are not modelled. Allocation always succeeds.
- The `std::cout` print in the move assignment is not modelled.
- Raw memory management is not modelled: `std::allocator`, placement construction and destruction, the destructor, `max_size`, `data()` and `getAllocator`. Only the live prefix is tracked.
- Iterators are not modelled: `begin`/`end`, the const and reverse variants, and pointer arithmetic. Positions are indices.
- The iterator slips are recorded as comments in `modifiers.dfy`. `InsertCount` and `InsertRange` take `f` before reallocating. `Emplace` and `InsertList` compute `pos - buffer` after reallocating.
- Modifiers.Emplace: uses the intended index. As written, after a reallocation the index is computed against the new buffer.
- Modifiers.InsertList: uses the intended index. As written, `pos - buffer` is computed after the reallocation (vector.h:615), against the new buffer.
- Modifiers.InsertCount: uses the intended index. As written, after a reallocation the iterator still points into the freed buffer.
- Modifiers.InsertRange: uses the intended index. As written, after a reallocation the iterator still points into the freed buffer.
- Modifiers.Insert, Modifiers.Emplace, Modifiers.InsertCount, Modifiers.InsertRange, Modifiers.InsertList: splice with a correct right shift (vector.h:538, 554, 569, 583, 600, 619). The forward move the source uses is modelled only at slot level; see Findings.
- Modifiers.PushBack, Modifiers.EmplaceBack, Modifiers.Insert, Modifiers.Emplace, Modifiers.InsertCount, Assignment.AssignFill, Capacity.Resize: read the value argument at call time; a reference argument that aliases one of the vector's own elements is not modelled. In the source `push_back(v[0])` on a full vector constructs from the freed buffer (vector.h:511-513, with the deallocation at vector.h:310); `assign(n, v[0])` and `resize(n, v[0])` read from the freed buffer when they grow; `insert(begin(), v[1])` copies the slot after the shift has overwritten it (vector.h:554 before vector.h:555).
- Moved-from values are not tracked. A move is modelled as a copy.
- Object lifetimes are not modelled:
  - `pop_back` destroys the slot one past the last element;
  - the destroy loop in the shrinking `resize` never runs;
  - constructions land over live slots.
- Overflow of `unsigned int` is not modelled. Sizes and capacities are unbounded, so `n << 2` is exactly `4 * n`. In the source it wraps for `n >= 2^30`, and so do `vec_sz + cnt` and the counter.
- The return values of the three assignment operators are not modelled. They have no `return` statement, so what they return is undefined.
- Modifiers.Swap: models the intended exchange of elements and capacities. The source assigns the size twice, never exchanges the capacity, and stores the old capacity into the other vector's size.
- Capacity.ResizeUnfilled: says nothing about the values of the new slots, because the source never constructs them.
- Element equality is Dafny's `==` on `T`. It stands for the element type's `operator!=` negated.
- The in-place storage algorithms cover the range `insert`, `push_back` and the range `erase`. The other overloads perform the same moves and writes.
