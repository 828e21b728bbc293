# chunks: splitting a sequence into fixed-size consecutive pieces

This project models `chunks(it, chunk_size)` from `util.py`. The function copies its
input into a list. It then returns the slices `lst[i:i + chunk_size]`, one for each
`i` in `range(0, len(lst), chunk_size)`.

The model is one Dafny module, `Util`, in `util.dfy`. It follows the source's own form:
- `Range` models Python's `range` with a positive step.
- `Slice` models Python's slice `s[lo:hi]` with non-negative bounds. The upper bound is
  clamped to the end of the list, which is how the last, shorter chunk comes about.
- `Chunks` is the comprehension itself: one slice per start index taken from `Range`.

The properties are then proved as lemmas about `Chunks`:
- flattening the chunks gives back the input;
- the number of chunks is the ceiling of the length divided by the chunk size;
- chunk k is exactly the input between `k * chunkSize` and the next boundary or the end;
- every chunk is non-empty and at most `chunkSize` long, all but the last are full, and the
  last holds the remainder;
- an empty input gives no chunks, and a short non-empty input gives one chunk.

The independent partner of `Chunks` is `IsChunking`. It describes what a chunking is, with
no reference to ranges or slices: the pieces concatenate to the input, each piece has
between 1 and `n` elements, and only the last piece may be shorter than `n`.
`ChunksIsChunking` and `ChunkingUnique` together show that `Chunks` is the one and only
such chunking.

## Model

| member | source | states |
|---|---|---|
| `Util.Range` | util.py:3 | `range(start, stop, step)` with step > 0: element j is `start + j * step`, every element is below `stop`, and the length is the least count that reaches `stop` |
| `Util.Slice` | util.py:3 | `s[lo:hi]` with the upper bound clamped to `len(s)`: the length is `min(hi, len(s)) - lo`, or 0 when `lo >= hi` or `lo >= len(s)`, and element k is `s[lo + k]` |
| `Util.Chunks` | util.py:1-3 | chunk k is the slice starting at `k * chunk_size`; every start index lies inside the input; the chunks together reach the end of the input |
| `Util.ChunkAt` | util.py:3 | chunk k equals `lst[k*chunk_size : min((k+1)*chunk_size, len(lst))]`, and its start index is inside the list, so chunks follow input order from index 0 |
| `Util.ChunkLength` | util.py:3 | every chunk has between 1 and `chunk_size` elements; every chunk except the last has exactly `chunk_size`; the last has `len(lst) % chunk_size` when that is non-zero, else `chunk_size` |
| `Util.ChunkCount` | util.py:3 | the number of chunks equals the length of `range(0, len(lst), chunk_size)`, which is `(len(lst) + chunk_size - 1) // chunk_size` |
| `Util.ChunksUnfold` | util.py:3 | for a non-empty input, the first chunk is the first `min(chunk_size, len(lst))` elements, and the remaining chunks are the chunks of the rest of the input |
| `Util.FlattenChunks` | util.py:2-3 | concatenating the chunks in order gives back exactly the materialised input |
| `Util.ChunksIsChunking` | util.py:2-3 | the result satisfies the `IsChunking` description of a chunking of the input |
| `Util.ChunkingUnique` | util.py:3 | any sequence of pieces satisfying `IsChunking` for the input and size equals the result of `chunks`, so the result is fully determined by that description |
| `Util.ShortInput` | util.py:3 | an empty input gives `[]` (not `[[]]`); a non-empty input no longer than `chunk_size` gives the single chunk `[lst]` |
| `Util.ChunksAppend` | util.py:3 | when the first part's length is a multiple of `chunk_size`, chunking `s + t` gives the chunks of `s` followed by the chunks of `t` |
| `Util.Rechunk` | util.py:2-3 | chunking the flattened result again with the same size gives the same chunks; a corollary of `FlattenChunks` |
| `Util.Examples` | util.py:1-3 | `chunks([1,2,3,4,5], 2) == [[1,2],[3,4],[5]]`, `chunks([1,2,3,4], 2) == [[1,2],[3,4]]`, `chunks([], 3) == []` |

## Left out

- A non-positive `chunk_size` is excluded by `requires chunkSize > 0`. In the code, a size
  of 0 makes `range` raise `ValueError`, and a negative size gives an empty `range`, so the
  result is `[]`. Neither path is modelled.
- The input is an already materialised `seq<T>`, so `list(it)` is the identity. The model
  does not capture the lazy, one-pass nature of arbitrary Python iterables.
- The inputs are only read, and each chunk is a fresh list. Dafny sequences are immutable
  values, so the model has no aliasing to rule out. "Fresh slices of a copy" therefore has
  no counterpart in the model.
- `Util.Slice` covers only non-negative slice bounds, since `chunks` never uses negative
  ones. Python's wrap-around for negative indices is not modelled.
- `util.py` contains only `chunks`; there is nothing else to model.
