/**
  The generic slice wrapper `Slice[T]`: a struct holding one Go slice, with
  bounds-checked operations on it.

  The wrapped slice is modelled by its header: the backing array `data`
  (whose Length is the slice's capacity) and the length `len`. The operations
  reassign the header and write into the backing array exactly as the Go code
  does through the built-in `append` (module GoSlices), so the effects of
  sharing the backing array between the slice and the sub-slices the code
  takes of it are part of the model.

  A Go panic is an explicit outcome here: every operation returns a Result,
  and an operation that panics leaves the slice as it was, since each panic
  happens before the first write.
 */
module SliceOps {
  import GoSlices

  /** Why an operation panicked. */
  datatype Panic =
    | IndexOutOfBounds              // the wrapper's own "index out of bounds"
    | EmptyPop                      // the wrapper's own "cannot pop from a empty slice"
    | RuntimeIndexOutOfRange        // the Go runtime, on an index expression
    | RuntimeSliceBoundsOutOfRange  // the Go runtime, on a slice expression

  /** An operation with a result either returns it or panics. */
  datatype Result<R> = Returned(value: R) | Panicked(reason: Panic)

  /** An operation without a result either completes or panics. */
  datatype Outcome = Completed | Aborted(reason: Panic)

  /** The length a new slice gets for a requested `length`: never less than 1. */
  function DefaultLen(length: int): (n: nat)
    ensures 1 <= n && length <= n
    ensures n == 1 || n == length
  {
    if length > 1 then length else 1
  }

  class Slice<T> {
    // the wrapped Go slice: backing array (capacity data.Length) and length
    var data: array<T>
    var len: nat
    // the zero value of T, which Go puts into freshly allocated cells
    const zero: T

    ghost predicate Valid()
      reads this
    {
      len <= data.Length
    }

    /** The elements of the wrapped slice. */
    ghost function Contents(): seq<T>
      reads this, data
      requires Valid()
    {
      data[..len]
    }

    /** `New[T](length)`: a slice of max(length, 1) zero values, made with
        `make`, so its capacity equals its length. */
    constructor (length: int, zero: T)
      ensures Valid() && fresh(data) && this.zero == zero
      ensures len == data.Length == DefaultLen(length)
      ensures 1 <= |Contents()| && length <= |Contents()|
      ensures forall i :: 0 <= i < |Contents()| ==> Contents()[i] == zero
    {
      var n := DefaultLen(length);
      data := new T[n](_ => zero);
      len := n;
      this.zero := zero;
    }

    /** `Append(value)`: `s.s = append(s.s, value)`. */
    method Append(value: T)
      requires Valid()
      modifies this, data
      ensures Valid()
      ensures Contents() == old(Contents()) + [value]
      ensures len == old(len) + 1
      ensures data[..] == GoSlices.AppendedBacking(old(data[..]), old(len), [value], zero)
      ensures old(len) < old(data.Length) ==> data == old(data)
      ensures old(len) == old(data.Length) ==> fresh(data)
    {
      GoSlices.AppendedBackingIsAppend(data[..], len, [value], zero);
      data, len := GoSlices.Append(data, len, [value], zero);
    }

    /** `Get(index)`: element `index`, or a panic when it is out of bounds. */
    method Get(index: int) returns (r: Result<T>)
      requires Valid()
      ensures r.Panicked? <==> index < 0 || index >= |Contents()|
      ensures r.Panicked? ==> r.reason == IndexOutOfBounds
      ensures r.Returned? ==> r.value == Contents()[index]
    {
      if index < 0 || index >= len {
        return Panicked(IndexOutOfBounds);
      }
      r := Returned(data[index]);
    }

    /** `InsertInIndex(index, value)`: despite its name, this OVERWRITES
        element `index`. `append(s.s[:index], value)` writes `value` into the
        shared backing array at `index`, and the outer append copies the
        elements after it onto themselves, so the length is unchanged and no
        element moves. */
    method InsertInIndex(index: int, value: T) returns (r: Outcome)
      requires Valid()
      modifies this, data
      ensures Valid() && data == old(data) && len == old(len)
      ensures r.Aborted? <==> index < 0 || index >= old(len)
      ensures r.Aborted? ==> r.reason == IndexOutOfBounds && data[..] == old(data[..])
      ensures r.Completed? ==> data[..] == old(data[..])[index := value]
      ensures r.Completed? ==> Contents() == old(Contents())[index := value]
    {
      if index < 0 || index >= len {
        return Aborted(IndexOutOfBounds);
      }
      GoSlices.AppendAroundOverwrites(data[..], len, index, value, zero);
      var a1, l1 := GoSlices.Append(data, index, [value], zero);
      data, len := GoSlices.Append(a1, l1, data[index + 1..len], zero);
      r := Completed;
    }

    /** `Pop()`: the last element, removed by shortening the slice; the
        backing array is not touched. Panics on an empty slice. */
    method Pop() returns (r: Result<T>)
      requires Valid()
      modifies this
      ensures Valid() && data == old(data)
      ensures old(len) == 0 ==> r == Panicked(EmptyPop) && len == 0
      ensures old(len) > 0 ==> r == Returned(old(Contents())[old(len) - 1])
      ensures old(len) > 0 ==> len == old(len) - 1 && Contents() == old(Contents())[..old(len) - 1]
    {
      if len == 0 {
        return Panicked(EmptyPop);
      }
      var length := len - 1;
      var val := data[length];
      len := length;
      r := Returned(val);
    }

    /** `RemoveFromIndex(index)`: `append(s.s[:index], s.s[index+1:]...)`
        shifts the later elements down by one inside the backing array; the
        old last element stays in the cell just past the new length. */
    method RemoveFromIndex(index: int) returns (r: Outcome)
      requires Valid()
      modifies this, data
      ensures Valid() && data == old(data)
      ensures r.Aborted? <==> index < 0 || index >= old(len)
      ensures r.Aborted? ==> r.reason == IndexOutOfBounds && len == old(len) && data[..] == old(data[..])
      ensures r.Completed? ==> len == old(len) - 1
      ensures r.Completed? ==> Contents() == old(Contents())[..index] + old(Contents())[index + 1..]
      ensures r.Completed? ==> data[..] == old(data[..index]) + old(data[index + 1..len]) + old(data[len - 1..])
    {
      if index < 0 || index >= len {
        return Aborted(IndexOutOfBounds);
      }
      GoSlices.AppendAfterShifts(data[..], len, index, zero);
      ghost var before := data[..];
      data, len := GoSlices.Append(data, index, data[index + 1..len], zero);
      assert before[..index] + before[index + 1..old(len)] == old(Contents())[..index] + old(Contents())[index + 1..];
      assert before[len..] == before[old(len) - 1..old(len)] + before[old(len)..];
      r := Completed;
    }

    /** `SwapIndex(from, to)`. Its guard tests `from >= len` twice and never
        `to >= len`: an index `to` past the length passes the guard and then
        panics in the Go runtime when `s.s[to]` is read, before any write. */
    method SwapIndex(from: int, to: int) returns (r: Outcome)
      requires Valid()
      modifies data
      ensures Valid()
      ensures r == Aborted(IndexOutOfBounds) <==> from < 0 || from >= len || to < 0
      ensures r == Aborted(RuntimeIndexOutOfRange) <==> 0 <= from < len && len <= to
      ensures r.Completed? <==> 0 <= from < len && 0 <= to < len
      ensures r.Aborted? ==> data[..] == old(data[..])
      ensures r.Completed? ==> data[..] == old(data[..])[from := old(data[to])][to := old(data[from])]
      ensures r.Completed? ==> Contents()[from] == old(Contents())[to] && Contents()[to] == old(Contents())[from]
      ensures r.Completed? ==> forall i :: 0 <= i < len && i != from && i != to ==> Contents()[i] == old(Contents())[i]
      ensures r.Completed? && from == to ==> Contents() == old(Contents())
    {
      if (from < 0 || from >= len) || (to < 0 || from >= len) {
        return Aborted(IndexOutOfBounds);
      }
      if to >= len {
        return Aborted(RuntimeIndexOutOfRange);
      }
      data[from], data[to] := data[to], data[from];
      r := Completed;
    }

    /** `Slice(from, to)`: `s.s[from:to]`, returned as a copy. The guard tests
        `from >= len` twice and never `to`: `from == len` panics even though
        the result would be empty, while a `to` past the length but within the
        capacity passes the guard and the Go slice expression, and the result
        then holds backing-array cells beyond the length. A `to` below `from`
        or past the capacity panics in the Go runtime. */
    method Slice(from: int, to: int) returns (r: Result<seq<T>>)
      requires Valid()
      ensures r == Panicked(IndexOutOfBounds) <==> from < 0 || from >= |Contents()| || to < 0
      ensures r == Panicked(RuntimeSliceBoundsOutOfRange) <==>
        0 <= from < |Contents()| && 0 <= to && (to < from || data.Length < to)
      ensures r.Returned? <==> 0 <= from < |Contents()| && from <= to <= data.Length
      ensures r.Returned? ==> |r.value| == to - from && r.value == data[from..to]
      ensures r.Returned? && to <= |Contents()| ==> r.value == Contents()[from..to]
      ensures r.Returned? && |Contents()| < to ==> r.value == Contents()[from..] + data[len..to]
    {
      if (from < 0 || from >= len) || (to < 0 || from >= len) {
        return Panicked(IndexOutOfBounds);
      }
      if to < from || to > data.Length {
        return Panicked(RuntimeSliceBoundsOutOfRange);
      }
      r := Returned(data[from..to]);
    }

    /** `All()`: the whole wrapped slice, returned as a copy. */
    method All() returns (r: seq<T>)
      requires Valid()
      ensures r == Contents()
    {
      r := data[..len];
    }
  }

  /** `Append(v)` followed by `Pop()` returns v and restores the contents. */
  method AppendThenPop<T>(s: Slice<T>, v: T) returns (r: Result<T>)
    requires s.Valid()
    modifies s, s.data
    ensures s.Valid()
    ensures r == Returned(v) && s.Contents() == old(s.Contents())
  {
    s.Append(v);
    r := s.Pop();
  }

  /** Swapping the same two indices twice restores the backing array, and
      both calls end the same way. */
  method SwapTwice<T>(s: Slice<T>, from: int, to: int) returns (r1: Outcome, r2: Outcome)
    requires s.Valid()
    modifies s.data
    ensures s.Valid() && r1 == r2
    ensures s.data[..] == old(s.data[..]) && s.Contents() == old(s.Contents())
  {
    r1 := s.SwapIndex(from, to);
    r2 := s.SwapIndex(from, to);
  }

  /** The worked scenario of `customSliceDriver`. */
  method CustomSliceDriver() returns (popped: Result<string>, all: seq<string>)
    ensures popped == Returned("foo") && all == ["bas"]
  {
    var s := new Slice<string>(2, "");
    assert s.Contents() == ["", ""];
    s.Append("foo");
    assert s.Contents() == ["", "", "foo"];
    var r := s.InsertInIndex(0, "bas");
    assert s.Contents() == ["bas", "", "foo"];
    r := s.InsertInIndex(1, "boo");
    assert s.Contents() == ["bas", "boo", "foo"];
    r := s.RemoveFromIndex(1);
    assert s.Contents() == ["bas", "foo"];
    popped := s.Pop();
    all := s.All();
  }

  /** `Slice` reads past the length: after `Pop` on a new slice of length 2,
      `Slice(0, 2)` returns both cells of the backing array, the popped one
      included, where a check of `to` against the length would have panicked. */
  method SliceReadsPastLength() returns (popped: Result<string>, r: Result<seq<string>>)
    ensures popped == Returned("") && r == Returned(["", ""])
  {
    var s := new Slice<string>(2, "");
    assert s.data[..] == ["", ""];
    popped := s.Pop();
    assert s.data[..] == ["", ""] && s.len == 1;
    r := s.Slice(0, 2);
    assert s.data[0..2] == s.data[..];
  }
}
