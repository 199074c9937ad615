/**
 The raw storage of `rice::vector<T>`: `buffer[0..cap_sz)` as a sequence of
 slots, the first `vec_sz` of them live. The element moves the source performs
 with `std::uninitialized_move` and its write loops are modelled here slot by
 slot, and the in-place algorithms are proved to realise the abstract
 operations of `Modifiers`.

 Moving an element is modelled as copying its value; what a moved-from slot
 holds afterwards is not tracked. Slots that hold no live element carry some
 value of `T` that no property depends on.
 */
module Buffer {
  import opened VectorState
  import opened Modifiers

  /** `buf` stores `v`: one slot per unit of capacity, the live elements first. */
  ghost predicate Holds<T>(buf: seq<T>, v: Vec<T>) {
    && |buf| == v.cap
    && |v.elems| <= |buf|
    && buf[..|v.elems|] == v.elems
  }

  /**
   What the forward move `uninitialized_move(from, size, from + k)` leaves
   behind: each write lands on a slot still to be read, so every destination
   slot repeats the slot `k` before it, and the tail becomes the first `k`
   elements of the range over and over instead of the range shifted.
   */
  ghost predicate ForwardMoved<T>(buf: seq<T>, from: nat, size: nat, k: nat, b: seq<T>)
    requires 0 < k && from <= size && size + k <= |buf|
  {
    && |b| == |buf|
    && b[..from + k] == buf[..from + k]
    && (forall j :: from + k <= j < size + k ==> b[j] == b[j - k])
    && b[size + k..] == buf[size + k..]
  }

  /** What a correct right shift by `k` of the slots `[from, size)` leaves behind. */
  ghost predicate ShiftedRight<T>(buf: seq<T>, from: nat, size: nat, k: nat, b: seq<T>)
    requires from <= size && size + k <= |buf|
  {
    && |b| == |buf|
    && b[..from + k] == buf[..from + k]
    && (forall t :: from <= t < size ==> b[t + k] == buf[t])
    && b[size + k..] == buf[size + k..]
  }

  /**
   The right shift as the source writes it (vector.h:538, 554, 569, 583, 600,
   619): `std::uninitialized_move` walks forwards, and the destination overlaps
   the part of the source range not yet read.
   */
  method MoveRightForward<T>(buf: seq<T>, from: nat, size: nat, k: nat) returns (b: seq<T>)
    requires 0 < k && from <= size && size + k <= |buf|
    ensures ForwardMoved(buf, from, size, k, b)
  {
    b := buf;
    var i := from;
    while i < size
      invariant from <= i <= size
      invariant |b| == |buf|
      invariant b[..from + k] == buf[..from + k]
      invariant forall j :: from + k <= j < i + k ==> b[j] == b[j - k]
      invariant b[i + k..] == buf[i + k..]
    {
      b := b[i + k := b[i]];
      i := i + 1;
    }
  }

  /**
   The forward move does not shift: with one slot of room and two distinct
   elements at `from` and `from + 1`, the slot `from + 2` receives the element
   at `from` again instead of the one at `from + 1`.
   */
  lemma ForwardMoveRepeats<T>(buf: seq<T>, from: nat, size: nat, b: seq<T>)
    requires from + 2 <= size && size + 1 <= |buf|
    requires buf[from] != buf[from + 1]
    requires ForwardMoved(buf, from, size, 1, b)
    ensures !ShiftedRight(buf, from, size, 1, b)
  {
  }

  /** The right shift the model relies on: the same moves, last slot first. */
  method MoveRightBackward<T>(buf: seq<T>, from: nat, size: nat, k: nat) returns (b: seq<T>)
    requires from <= size && size + k <= |buf|
    ensures ShiftedRight(buf, from, size, k, b)
  {
    b := buf;
    var i := size;
    while i > from
      invariant from <= i <= size
      invariant |b| == |buf|
      invariant b[..i + k] == buf[..i + k]
      invariant forall t :: i <= t < size ==> b[t + k] == buf[t]
      invariant b[size + k..] == buf[size + k..]
    {
      i := i - 1;
      assert b[i] == buf[i];
      b := b[i + k := b[i]];
    }
  }

  /** The write loops: `vals` in order into the slots from `at`, nothing else touched. */
  method WriteRun<T>(buf: seq<T>, at: nat, vals: seq<T>) returns (b: seq<T>)
    requires at + |vals| <= |buf|
    ensures |b| == |buf|
    ensures b[..at] == buf[..at]
    ensures b[at..at + |vals|] == vals
    ensures b[at + |vals|..] == buf[at + |vals|..]
  {
    b := buf;
    var i := 0;
    while i < |vals|
      invariant i <= |vals|
      invariant |b| == |buf|
      invariant b[..at] == buf[..at]
      invariant forall j :: 0 <= j < i ==> b[at + j] == vals[j]
      invariant b[at + i..] == buf[at + i..]
    {
      b := b[at + i := vals[i]];
      i := i + 1;
    }
    assert b[at..at + |vals|] == vals by {
      forall j | 0 <= j < |vals|
        ensures b[at..at + |vals|][j] == vals[j]
      {
        assert b[at + j] == vals[j];
      }
    }
  }

  /**
   The left shift of `erase` (vector.h:635, 649): the slots `[last, size)`
   move down to `first` in increasing order. Each write lands at or before the
   slot it reads, so the forward direction is the right one here.
   */
  method MoveLeft<T>(buf: seq<T>, first: nat, last: nat, size: nat) returns (b: seq<T>)
    requires first <= last <= size <= |buf|
    ensures |b| == |buf|
    ensures b[..first] == buf[..first]
    ensures forall t :: last <= t < size ==> b[first + (t - last)] == buf[t]
  {
    b := buf;
    var i := last;
    while i < size
      invariant last <= i <= size
      invariant |b| == |buf|
      invariant b[..first] == buf[..first]
      invariant forall t :: last <= t < i ==> b[first + (t - last)] == buf[t]
      invariant forall t :: i <= t < |buf| ==> b[t] == buf[t]
    {
      b := b[first + (i - last) := b[i]];
      i := i + 1;
    }
  }

  /**
   A fresh buffer of `newCap` slots holding the live prefix of `buf`, as
   `reallocate()` builds it; `blank` stands for the uninitialized slots.
   */
  method ReallocateBuffer<T>(buf: seq<T>, size: nat, newCap: nat, blank: T) returns (b: seq<T>)
    requires size <= |buf| && size <= newCap
    ensures |b| == newCap
    ensures b[..size] == buf[..size]
  {
    b := buf[..size] + seq(newCap - size, _ => blank);
  }

  /**
   `insert(pos, first, last)` on the storage, with the backward shift: grow
   when needed, shift the tail right, write the range into the gap. The
   resulting storage holds exactly the abstract `InsertRange`.
   */
  method InsertInPlace<T>(buf: seq<T>, v: Vec<T>, pos: nat, vals: seq<T>) returns (b: seq<T>)
    requires Holds(buf, v) && pos <= |v.elems|
    ensures Holds(b, InsertRange(v, pos, vals).vec)
  {
    if |vals| == 0 {
      return buf;
    }
    var size := |v.elems|;
    var k := |vals|;
    var store := buf;
    if size + k > v.cap {
      store := ReallocateBuffer(buf, size, Grow(size + k), vals[0]);
    }
    assert store[..size] == v.elems;
    var shifted := MoveRightBackward(store, pos, size, k);
    b := WriteRun(shifted, pos, vals);
    ghost var r := InsertRange(v, pos, vals).vec;
    assert |b| == r.cap;
    forall j | 0 <= j < size + k
      ensures b[j] == r.elems[j]
    {
      if j < pos {
        assert b[j] == shifted[j] == store[j];
        assert store[j] == v.elems[j];
      } else if j < pos + k {
        assert b[j] == b[pos..pos + k][j - pos];
      } else {
        assert b[j] == shifted[j];
        assert shifted[(j - k) + k] == store[j - k];
        assert store[j - k] == v.elems[j - k];
      }
    }
    assert b[..size + k] == r.elems;
  }

  /**
   `push_back(value)` on the storage. The write is only in bounds when the
   capacity is not 0: a full vector of capacity 0 "grows" to capacity 0.
   */
  method PushBackInPlace<T>(buf: seq<T>, v: Vec<T>, value: T) returns (b: seq<T>)
    requires Holds(buf, v) && v.cap > 0
    ensures Holds(b, PushBack(v, value))
  {
    var size := |v.elems|;
    var store := buf;
    if size == v.cap {
      store := ReallocateBuffer(buf, size, Grow(v.cap), value);
    }
    b := store[size := value];
    assert b[..size + 1] == store[..size] + [value];
  }

  /** `erase(first, last)` on the storage: the storage then holds the abstract `EraseRange`. */
  method EraseInPlace<T>(buf: seq<T>, v: Vec<T>, first: nat, last: nat) returns (b: seq<T>)
    requires Holds(buf, v) && first <= last <= |v.elems|
    ensures Holds(b, EraseRange(v, first, last).vec)
  {
    if first == last {
      return buf;
    }
    var size := |v.elems|;
    b := MoveLeft(buf, first, last, size);
    ghost var r := EraseRange(v, first, last).vec;
    forall j | 0 <= j < size - (last - first)
      ensures b[j] == r.elems[j]
    {
      if j < first {
        assert b[j] == b[..first][j];
      } else {
        var t := last + (j - first);
        assert b[first + (t - last)] == buf[t];
        assert buf[t] == v.elems[t];
      }
    }
    assert b[..size - (last - first)] == r.elems;
  }
}
