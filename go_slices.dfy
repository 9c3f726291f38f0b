/**
  Go's built-in slice machinery, as far as the slice wrapper relies on it.

  A Go slice value is a header (pointer to a backing array, length, capacity).
  Every slice the wrapper handles starts at element 0 of its backing array, so
  a header is described here by the array itself (its Length is the capacity)
  and a length. `append(x, ys...)` writes into x's backing array when the
  appended elements fit into the capacity, and otherwise allocates a new,
  larger array, copies x into it and leaves the old array alone.
 */
module GoSlices {

  /** Capacity the runtime chooses when an append of `needed` elements does not
      fit into `oldCap`: exactly what is needed when that is more than twice
      the old capacity; otherwise twice the old capacity for small slices, and
      for slices of 256 or more elements repeated growth by a quarter (plus
      192) until the need is met. */
  function GrownCap(oldCap: nat, needed: nat): (c: nat)
    requires oldCap < needed
    ensures needed <= c
    ensures needed > 2 * oldCap ==> c == needed
    ensures needed <= 2 * oldCap && oldCap < 256 ==> c == 2 * oldCap
  {
    if needed > 2 * oldCap then needed
    else if oldCap < 256 then 2 * oldCap
    else GrownByQuarters(oldCap, needed)
  }

  /** The loop of the runtime's growth rule for large slices: grow `c` by
      (c + 768) / 4 at least once, and until it reaches `needed`. The result
      reaches the need and overshoots it by less than one more step. */
  function GrownByQuarters(c: nat, needed: nat): (r: nat)
    ensures needed <= r && c < r
    ensures needed <= c + (c + 768) / 4 ==> r == c + (c + 768) / 4
    ensures needed > c + (c + 768) / 4 ==> r < needed + (needed + 768) / 4
    decreases needed - c
  {
    var next := c + (c + 768) / 4;
    if next >= needed then next else GrownByQuarters(next, needed)
  }

  /** The contents of the backing array that `append(x, ys...)` returns, where
      x has length `k` over the backing array whose contents are `backing`.
      Cells a newly allocated array has beyond the appended ones hold `zero`. */
  function AppendedBacking<T>(backing: seq<T>, k: nat, ys: seq<T>, zero: T): seq<T>
    requires k <= |backing|
  {
    if k + |ys| <= |backing| then
      backing[..k] + ys + backing[k + |ys|..]
    else
      backing[..k] + ys + seq(GrownCap(|backing|, k + |ys|) - k - |ys|, _ => zero)
  }

  /** What append promises its caller: the first k + |ys| cells are x followed
      by ys; the array is reused exactly when the result fits, and in that case
      the cells past the new length are left as they were. */
  lemma AppendedBackingIsAppend<T>(backing: seq<T>, k: nat, ys: seq<T>, zero: T)
    requires k <= |backing|
    ensures var r := AppendedBacking(backing, k, ys, zero);
      && k + |ys| <= |r|
      && r[..k + |ys|] == backing[..k] + ys
      && (|r| == |backing| <==> k + |ys| <= |backing|)
      && (k + |ys| <= |backing| ==> r[k + |ys|..] == backing[k + |ys|..])
      && (k + |ys| > |backing| ==> forall i :: k + |ys| <= i < |r| ==> r[i] == zero)
  {
  }

  /** `append(append(x[:i], v), x[i+1:]...)` on a slice x of length n: the
      first append writes v into cell i of x's own backing array (x[:i] has
      room since its capacity is at least n > i), and the second copies cells
      i+1 .. n-1 onto themselves. The net effect is that cell i is
      overwritten and nothing else changes: no element moves. */
  lemma AppendAroundOverwrites<T>(backing: seq<T>, n: nat, i: nat, v: T, zero: T)
    requires i < n <= |backing|
    ensures var b1 := AppendedBacking(backing, i, [v], zero);
      && |b1| == |backing|
      && AppendedBacking(b1, i + 1, b1[i + 1..n], zero) == backing[i := v]
  {
  }

  /** `append(x[:i], x[i+1:]...)` on a slice x of length n: cells i+1 .. n-1
      move down by one inside x's own backing array; the result has length
      n - 1, and cell n - 1 keeps its old value, now past the length. */
  lemma AppendAfterShifts<T>(backing: seq<T>, n: nat, i: nat, zero: T)
    requires i < n <= |backing|
    ensures var r := AppendedBacking(backing, i, backing[i + 1..n], zero);
      && |r| == |backing|
      && r[..n - 1] == backing[..i] + backing[i + 1..n]
      && r[n - 1] == backing[n - 1]
      && r[n..] == backing[n..]
  {
  }

  /** The built-in `append(x, ys...)` for a slice x of length k over the array
      a. Returns the header of the result: its backing array b (a itself when
      the result fits, a fresh array otherwise) and its length n. */
  method Append<T>(a: array<T>, k: nat, ys: seq<T>, zero: T) returns (b: array<T>, n: nat)
    requires k <= a.Length
    modifies a
    ensures n == k + |ys| && n <= b.Length
    ensures b[..] == AppendedBacking(old(a[..]), k, ys, zero)
    ensures n <= a.Length ==> b == a
    ensures a.Length < n ==> fresh(b) && unchanged(a)
  {
    n := k + |ys|;
    AppendedBackingIsAppend(a[..], k, ys, zero);
    if n <= a.Length {
      b := a;
      forall i | 0 <= i < |ys| {
        a[k + i] := ys[i];
      }
      assert a[..] == old(a[..k]) + ys + old(a[n..]);
    } else {
      b := new T[GrownCap(a.Length, n)](_ => zero);
      forall i | 0 <= i < k {
        b[i] := a[i];
      }
      forall i | 0 <= i < |ys| {
        b[k + i] := ys[i];
      }
      assert b[..] == a[..k] + ys + seq(b.Length - n, _ => zero);
    }
  }
}
