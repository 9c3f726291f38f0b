# Slice wrapper and runner registry of go-concurrency-exercises-v2

This project models the two pieces of sequential logic in the repository and
proves what they do.

- **`Slice[T]`** (`slices-deep-dive/slice_ops.go`) is a generic wrapper around
  one Go slice. It offers a constructor with a minimum length and the
  operations `Append`, `Get`, `InsertInIndex`, `Pop`, `RemoveFromIndex`,
  `SwapIndex`, `Slice` and `All`. The class `SliceOps.Slice` keeps the wrapped
  slice as its header: the backing array `data`, whose length is the
  capacity, and the length `len`. The mutators write into that array through
  a model of Go's built-in `append` (module `GoSlices`). That model reuses the
  array when the result fits into the capacity. Otherwise it allocates a
  larger one, sized by the runtime's growth rule. The effects of the wrapper
  sharing its backing array with the sub-slices it takes are therefore
  derived by the proof, not stipulated:
  - `InsertInIndex(i, v)` does not insert. The inner `append(s.s[:i], v)`
    writes `v` into cell `i` of the shared array. The outer append then copies
    cells `i+1 ..` onto themselves. The proved effect is "element `i` becomes
    `v`, the length is unchanged" (`GoSlices.AppendAroundOverwrites`).
  - `RemoveFromIndex(i)` shifts the later elements down inside the same
    array. The old last element stays in the cell just past the new length.
  - `Pop` only shortens the slice.
  - The guards of `SwapIndex` and `Slice` test `from >= len` twice and never
    test `to >= len`. In `SwapIndex`, an index `to` past the length passes the
    guard and then panics in the Go runtime. In `Slice`, `from == len` panics
    even though the result would be empty. A `to` between the length and the
    capacity is accepted, and the result holds cells past the length
    (`SliceOps.SliceReadsPastLength` shows a popped element read back this
    way).
  - Every panic is an explicit outcome (`Result.Panicked`, `Outcome.Aborted`)
    with its reason. Each panic happens before the first write, so a panicking
    operation leaves the slice as it was.
- **`runner`** (`runner/controlled_runner.go`) is a stub holding a set of
  users, a concurrency limit and a semaphore channel. The class
  `Runner.Runner` models the constructor and `AddUser`. The channel is only
  ever allocated, always with buffer size 100, so it is modelled by that
  capacity alone.

All Go `int`s here are lengths and indices far below any overflow, so they are
modelled as unbounded integers. The zero value of `T`, which Go puts into
newly made cells, is a constructor parameter (`zero`).

## Model

| member | source | states |
|---|---|---|
| `GoSlices.GrownCap` | slices-deep-dive/slice_ops.go:18 | the capacity the runtime chooses when an append does not fit holds at least the needed elements; it is exactly what is needed when that is more than twice the old capacity, and twice the old capacity for a slice of fewer than 256 elements |
| `GoSlices.GrownByQuarters` | slices-deep-dive/slice_ops.go:18 | the runtime's growth for slices of 256 or more elements grows the capacity at least once, reaches the need, and overshoots it by less than one more step of a quarter plus 192 |
| `GoSlices.AppendedBackingIsAppend` | slices-deep-dive/slice_ops.go:18 | after `append(x, ys...)` the first `len(x)+len(ys)` cells are x followed by ys; the backing array is reused exactly when the result fits, and then the cells past the new length are untouched; a new array is zero past the new length |
| `GoSlices.Append` | slices-deep-dive/slice_ops.go:18 | the built-in `append` on an array: the result length is `k+len(ys)`, the result's cells are those described by `AppendedBacking`, the same array is returned when the result fits, and otherwise a fresh array is returned and the old one is left unchanged |
| `GoSlices.AppendAroundOverwrites` | slices-deep-dive/slice_ops.go:31 | `append(append(x[:i], v), x[i+1:]...)` over an index `i` inside the length leaves the backing array exactly as it was except that cell `i` holds `v` |
| `GoSlices.AppendAfterShifts` | slices-deep-dive/slice_ops.go:48 | `append(x[:i], x[i+1:]...)` over an index `i` inside the length `n` makes the first `n-1` cells `x[:i]` followed by `x[i+1:]`, keeps the old last element at cell `n-1`, and leaves the cells past the length and the capacity unchanged |
| `SliceOps.DefaultLen` | slices-deep-dive/slice_ops.go:8-11 | the length used for `New(length)` is `max(length, 1)`: at least 1, at least `length`, and equal to one of them |
| `SliceOps.Slice.constructor` | slices-deep-dive/slice_ops.go:7-15 | a new slice holds exactly `max(length, 1)` zero values, so it is never empty, even for `length <= 0`, and its capacity equals its length |
| `SliceOps.Slice.Append` | slices-deep-dive/slice_ops.go:17-19 | the contents become the old contents followed by `value`, so the length grows by one and earlier elements are unchanged; the backing array is reused when there was spare capacity and is a fresh one otherwise |
| `SliceOps.Slice.Get` | slices-deep-dive/slice_ops.go:20-25 | it panics with "index out of bounds" exactly when `index < 0` or `index >= len`, and otherwise returns element `index`; nothing is changed |
| `SliceOps.Slice.InsertInIndex` | slices-deep-dive/slice_ops.go:27-32 | in range, element `index` becomes `value` and every other element and cell is unchanged, with the same length and backing array; out of range, it panics and changes nothing |
| `SliceOps.Slice.Pop` | slices-deep-dive/slice_ops.go:34-42 | on a non-empty slice it returns the old last element and the contents become the old ones without it; on an empty slice it panics; the backing array is not written |
| `SliceOps.Slice.RemoveFromIndex` | slices-deep-dive/slice_ops.go:44-49 | in range, the contents become `old[..i] + old[i+1..]`, so the length drops by one, and the old last element stays in the backing array past the new length; out of range, it panics and changes nothing |
| `SliceOps.Slice.SwapIndex` | slices-deep-dive/slice_ops.go:51-56 | with both indices in range it exchanges elements `from` and `to` and leaves all others unchanged, and `from == to` is the identity; a bad `from` or a negative `to` panics in the guard, and a `to >= len` panics in the Go runtime; a panic changes nothing |
| `SliceOps.Slice.Slice` | slices-deep-dive/slice_ops.go:58-63 | the guard panics exactly for `from < 0`, `from >= len` (including `from == len`) or `to < 0`; otherwise the Go runtime panics when `to < from` or `to` exceeds the capacity; otherwise it returns `old[from..to]` when `to <= len`, and the contents from `from` followed by the cells past the length when `to > len`; nothing is changed |
| `SliceOps.Slice.All` | slices-deep-dive/slice_ops.go:65-67 | it returns the whole contents |
| `SliceOps.AppendThenPop` | slices-deep-dive/slice_ops.go:17-42 | `Append(v)` then `Pop()` returns `v` and restores the original contents |
| `SliceOps.SwapTwice` | slices-deep-dive/slice_ops.go:51-56 | two identical `SwapIndex` calls end the same way and restore both the contents and the whole backing array |
| `SliceOps.CustomSliceDriver` | slices-deep-dive/main.go:14-22 | the demo: `New(2)`, `Append("foo")`, `InsertInIndex(0, "bas")`, `InsertInIndex(1, "boo")` and `RemoveFromIndex(1)` lead to `["bas", "foo"]`; `Pop` then returns `"foo"` and `All` returns `["bas"]` |
| `SliceOps.SliceReadsPastLength` | slices-deep-dive/slice_ops.go:58-63 | after `Pop` on a new slice of length 2, `Slice(0, 2)` passes both checks and returns both cells, the popped one included |
| `Runner.Runner.constructor` | runner/controlled_runner.go:17-23 | a new runner has no users, records the given concurrency limit, and has a semaphore of capacity 100 whatever the limit |
| `Runner.Runner.AddUser` | runner/controlled_runner.go:24-26 | afterwards `user` is in the user set, which is the old set plus `user`; adding a present user leaves the set unchanged; no other user, the concurrency limit and the semaphore capacity are untouched |

## Left out

- The rest of the repository is concurrency code: the fan-out pipeline and image downloader, the generators, the timer-driven limiter and the mutex demo. It works through goroutines, channels, `sync.WaitGroup`, tickers, atomics, HTTP, JSON and log files, and has no sequential meaning to model.
- The entry points `main.go`, `slices-deep-dive/main.go` and `limiter/main.go` only print or drive the above. `customSliceDriver` is modelled as the scenario `SliceOps.CustomSliceDriver`, without its printing.
- GoSlices.GrownCap: the runtime then rounds the capacity up to an allocator size class that depends on the element size in bytes, and guards against 64-bit overflow; neither is modelled. This changes only the capacity after an `Append` that reallocates, which matters only for which `to` values `Slice` accepts past the length.
- `All` and `Slice` return views that share the backing array with the wrapper in Go. The model returns copies, so later writes through either side are not seen by the other.
- Panic messages are modelled as a reason value, not as text. A panic is an outcome of the operation; recovering from it is not modelled.
- The runner's `sem` channel is modelled only by its capacity, because the code never sends on it or receives from it. The `users` map is modelled as the set of its keys, because its values are all the empty struct.
