/**
 * A model of `chunks(it, chunk_size)`: the input is materialised as a list and
 * split into the consecutive slices that start at every `chunk_size`-th index.
 *
 * The function is written the way the source writes it: a comprehension over
 * `range(0, len(lst), chunk_size)` whose elements are Python slices
 * `lst[i:i + chunk_size]`. Both Python primitives are modelled below (Range and
 * Slice), so that the end-of-list clamping of the last slice is visible.
 */
module Util {

  function Min(a: int, b: int): int {
    if a <= b then a else b
  }

  /** The concatenation of a sequence of sequences, in order. */
  function Flatten<T>(ss: seq<seq<T>>): seq<T> {
    if ss == [] then [] else ss[0] + Flatten(ss[1..])
  }

  /**
   * Python's `range(start, stop, step)` for a positive step: the values
   * start, start + step, start + 2 * step, ... that lie below stop. The last
   * two postconditions say that the length is the least count that reaches
   * stop.
   */
  function Range(start: int, stop: int, step: int): (r: seq<int>)
    requires step > 0
    ensures forall j :: 0 <= j < |r| ==> r[j] == start + j * step
    ensures forall j :: 0 <= j < |r| ==> r[j] < stop
    ensures start + |r| * step >= stop
    decreases stop - start
  {
    if start < stop then
      var rest := Range(start + step, stop, step);
      assert start + (|rest| + 1) * step == start + step + |rest| * step;
      assert forall j :: 0 < j <= |rest| ==> start + j * step == start + step + (j - 1) * step;
      [start] + rest
    else
      []
  }

  /**
   * Python's slice `s[lo:hi]` for non-negative bounds: the elements from index
   * lo up to (not including) hi, with hi clamped to the end of s; empty when
   * lo is at or past hi or past the end of s.
   */
  function Slice<T>(s: seq<T>, lo: nat, hi: nat): (r: seq<T>)
    ensures |r| == if lo < hi && lo < |s| then Min(hi, |s|) - lo else 0
    ensures forall k :: 0 <= k < |r| ==> r[k] == s[lo + k]
  {
    if lo < hi && lo < |s| then s[lo..Min(hi, |s|)] else []
  }

  /**
   * `chunks(it, chunk_size)`. The input is already a sequence, so `list(it)`
   * is the identity here. Chunk k is the slice that starts at k * chunkSize,
   * every start lies inside the input, and there are just enough chunks to
   * reach its end.
   */
  function Chunks<T>(it: seq<T>, chunkSize: nat): (r: seq<seq<T>>)
    requires chunkSize > 0
    ensures forall k :: 0 <= k < |r| ==> k * chunkSize < |it|
    ensures forall k :: 0 <= k < |r| ==> r[k] == Slice(it, k * chunkSize, k * chunkSize + chunkSize)
    ensures |r| * chunkSize >= |it|
  {
    var lst := it;
    var starts := Range(0, |lst|, chunkSize);
    var r := seq(|starts|, k requires 0 <= k < |starts| => Slice(lst, starts[k], starts[k] + chunkSize));
    assert forall k :: 0 <= k < |r| ==> k * chunkSize < |it| by {
      forall k | 0 <= k < |r| ensures k * chunkSize < |it| {
        assert starts[k] < |lst|;
      }
    }
    r
  }

  /** Chunk k is exactly the input's elements from k * chunkSize up to the next boundary or the end. */
  lemma ChunkAt<T>(it: seq<T>, chunkSize: nat, k: nat)
    requires chunkSize > 0
    requires k < |Chunks(it, chunkSize)|
    ensures k * chunkSize < |it|
    ensures Chunks(it, chunkSize)[k] == it[k * chunkSize .. Min((k + 1) * chunkSize, |it|)]
  {
    assert (k + 1) * chunkSize == k * chunkSize + chunkSize;
  }

  /** Every chunk is non-empty and at most chunkSize long; all but the last are exactly chunkSize long, and the last holds the remainder. */
  lemma ChunkLength<T>(it: seq<T>, chunkSize: nat, k: nat)
    requires chunkSize > 0
    requires k < |Chunks(it, chunkSize)|
    ensures 0 < |Chunks(it, chunkSize)[k]| <= chunkSize
    ensures k < |Chunks(it, chunkSize)| - 1 ==> |Chunks(it, chunkSize)[k]| == chunkSize
    ensures k == |Chunks(it, chunkSize)| - 1 ==>
              |Chunks(it, chunkSize)[k]| == if |it| % chunkSize != 0 then |it| % chunkSize else chunkSize
  {
    var r := Chunks(it, chunkSize);
    var n := chunkSize;
    if k < |r| - 1 {
      assert (k + 1) * n < |it|;
      assert (k + 1) * n == k * n + n;
    } else {
      assert |r| * n == k * n + n;
      var last := |it| - k * n;
      assert 0 < last <= n;
      if last < n {
        DivModUnique(|it|, n, k, last);
      } else {
        assert (k + 1) * n == k * n + n;
        DivModUnique(|it|, n, k + 1, 0);
      }
    }
  }

  /** A product with a factor of at least 1 is at least the other (positive) factor. */
  lemma MulAtLeast(d: int, n: int)
    requires d >= 1 && n > 0
    ensures d * n >= n
  {
  }

  /** Euclidean division is unique: a == q * n + rem with 0 <= rem < n fixes a / n and a % n. */
  lemma DivModUnique(a: int, n: int, q: int, rem: int)
    requires n > 0 && 0 <= rem < n
    requires a == q * n + rem
    ensures a % n == rem && a / n == q
  {
    var q', r' := a / n, a % n;
    assert a == q' * n + r';
    assert (q - q') * n == r' - rem;
    if q > q' {
      MulAtLeast(q - q', n);
    } else if q < q' {
      MulAtLeast(q' - q, n);
    }
  }

  /** The number of chunks is the ceiling of |it| / chunkSize, the length Python gives `range(0, len(lst), chunk_size)`. */
  lemma ChunkCount<T>(it: seq<T>, chunkSize: nat)
    requires chunkSize > 0
    ensures |Chunks(it, chunkSize)| == |Range(0, |it|, chunkSize)|
    ensures |Chunks(it, chunkSize)| == (|it| + chunkSize - 1) / chunkSize
  {
    var m := |Chunks(it, chunkSize)|;
    var n := chunkSize;
    if m == 0 {
      assert |it| == 0;
    } else {
      assert (m - 1) * n < |it| <= m * n;
      assert (m - 1) * n + n == m * n;
      var rem := |it| + n - 1 - m * n;
      assert 0 <= rem < n;
      DivModUnique(|it| + n - 1, n, m, rem);
    }
  }

  /** Slicing after dropping d elements is slicing the original d positions later. */
  lemma SliceDrop<T>(s: seq<T>, d: nat, lo: nat, hi: nat)
    requires d <= |s|
    ensures Slice(s[d..], lo, hi) == Slice(s, lo + d, hi + d)
  {
    var a, b := Slice(s[d..], lo, hi), Slice(s, lo + d, hi + d);
    assert |a| == |b|;
    forall k | 0 <= k < |a| ensures a[k] == b[k] {
      assert a[k] == s[d..][lo + k] == s[lo + d + k];
    }
  }

  /** Multiplying by a positive number keeps the order. */
  lemma MulMonotone(a: int, b: int, n: int)
    requires a <= b && n > 0
    ensures a * n <= b * n
  {
  }

  /** At most one count m satisfies (m - 1) * n < x <= m * n. */
  lemma CeilingUnique(x: int, n: int, a: int, b: int)
    requires n > 0
    requires (a - 1) * n < x <= a * n
    requires (b - 1) * n < x <= b * n
    ensures a == b
  {
    if a < b {
      MulMonotone(a, b - 1, n);
    } else if b < a {
      MulMonotone(b, a - 1, n);
    }
  }

  /** Dropping one full chunk's worth of elements leaves one chunk fewer. */
  lemma ChunkCountStep<T>(it: seq<T>, chunkSize: nat)
    requires chunkSize > 0
    requires |it| > chunkSize
    ensures |Chunks(it, chunkSize)| == |Chunks(it[chunkSize..], chunkSize)| + 1
  {
    var n := chunkSize;
    var m, m' := |Chunks(it, n)|, |Chunks(it[n..], n)|;
    assert (m - 1) * n < |it|;
    assert m' > 0 && (m' - 1) * n < |it| - n;
    assert (m' + 1 - 1) * n == (m' - 1) * n + n;
    assert (m' + 1) * n == m' * n + n;
    CeilingUnique(|it|, n, m, m' + 1);
  }

  /** The chunks after the first are the chunks of what follows the first chunk. */
  lemma ChunksTail<T>(it: seq<T>, chunkSize: nat)
    requires chunkSize > 0
    requires |it| > chunkSize
    ensures Chunks(it, chunkSize)[1..] == Chunks(it[chunkSize..], chunkSize)
  {
    var n := chunkSize;
    var r, rt := Chunks(it, n), Chunks(it[n..], n);
    ChunkCountStep(it, n);
    forall k | 0 <= k < |rt| ensures r[k + 1] == rt[k] {
      assert (k + 1) * n == k * n + n;
      SliceDrop(it, n, k * n, k * n + n);
    }
  }

  /** The first chunk is the first min(chunkSize, |it|) elements, and the rest is the chunking of what follows. */
  lemma ChunksUnfold<T>(it: seq<T>, chunkSize: nat)
    requires chunkSize > 0
    requires |it| > 0
    ensures Chunks(it, chunkSize) == [it[..Min(chunkSize, |it|)]] + Chunks(it[Min(chunkSize, |it|)..], chunkSize)
  {
    var n := chunkSize;
    var r := Chunks(it, n);
    ChunkAt(it, n, 0);
    if |it| <= n {
      assert |r| > 0;
      assert (|r| - 1) * n < n;
      if |r| > 1 {
        MulAtLeast(|r| - 1, n);
      }
      assert |r| == 1;
      assert |Chunks(it[|it|..], n)| == 0;
    } else {
      ChunksTail(it, n);
      assert r == [r[0]] + r[1..];
    }
  }

  /** Flattening the chunks gives back the input: every element lands in exactly one chunk, in order. */
  lemma {:induction false} FlattenChunks<T>(it: seq<T>, chunkSize: nat)
    requires chunkSize > 0
    ensures Flatten(Chunks(it, chunkSize)) == it
    decreases |it|
  {
    var r := Chunks(it, chunkSize);
    if |it| == 0 {
      assert r == [];
    } else {
      var m := Min(chunkSize, |it|);
      ChunksUnfold(it, chunkSize);
      FlattenChunks(it[m..], chunkSize);
      assert r[1..] == Chunks(it[m..], chunkSize);
      assert it == it[..m] + it[m..];
    }
  }

  /**
   * A chunking of s into pieces of size n: the pieces concatenate to s, each
   * is non-empty and at most n long, and only the last may be shorter than n.
   */
  ghost predicate IsChunking<T>(r: seq<seq<T>>, s: seq<T>, n: nat) {
    && Flatten(r) == s
    && (forall k :: 0 <= k < |r| ==> 0 < |r[k]| <= n)
    && (forall k :: 0 <= k < |r| - 1 ==> |r[k]| == n)
  }

  /** Chunks produces a chunking of its input. */
  lemma ChunksIsChunking<T>(it: seq<T>, chunkSize: nat)
    requires chunkSize > 0
    ensures IsChunking(Chunks(it, chunkSize), it, chunkSize)
  {
    FlattenChunks(it, chunkSize);
    forall k | 0 <= k < |Chunks(it, chunkSize)| ensures 0 < |Chunks(it, chunkSize)[k]| <= chunkSize {
      ChunkLength(it, chunkSize, k);
    }
    forall k | 0 <= k < |Chunks(it, chunkSize)| - 1 ensures |Chunks(it, chunkSize)[k]| == chunkSize {
      ChunkLength(it, chunkSize, k);
    }
  }

  /** There is only one chunking of s into pieces of size n, and Chunks is it. */
  lemma {:induction false} ChunkingUnique<T>(r: seq<seq<T>>, s: seq<T>, n: nat)
    requires n > 0
    requires IsChunking(r, s, n)
    ensures r == Chunks(s, n)
    decreases |r|
  {
    if r == [] {
      assert s == [];
      assert |Chunks(s, n)| == 0;
    } else {
      var c, rest := r[0], r[1..];
      var tail := Flatten(rest);
      assert s == c + tail;
      assert forall k :: 0 <= k < |rest| ==> rest[k] == r[k + 1];
      assert IsChunking(rest, tail, n);
      ChunkingUnique(rest, tail, n);
      ChunksUnfold(s, n);
      if rest == [] {
        assert tail == [];
        assert s[..Min(n, |s|)] == c;
        assert s[Min(n, |s|)..] == [];
      } else {
        assert |c| == n;
        assert tail == rest[0] + Flatten(rest[1..]);
        assert s[..Min(n, |s|)] == c;
        assert s[Min(n, |s|)..] == tail;
      }
    }
  }

  /** An input no longer than chunkSize is one chunk holding all of it; an empty input gives no chunks at all. */
  lemma ShortInput<T>(it: seq<T>, chunkSize: nat)
    requires chunkSize > 0
    requires |it| <= chunkSize
    ensures Chunks(it, chunkSize) == if |it| == 0 then [] else [it]
  {
    if |it| == 0 {
      assert |Chunks(it, chunkSize)| == 0;
    } else {
      ChunksUnfold(it, chunkSize);
      assert it[..|it|] == it;
      assert |Chunks(it[|it|..], chunkSize)| == 0;
    }
  }

  lemma {:induction false} FlattenAppend<T>(a: seq<seq<T>>, b: seq<seq<T>>)
    ensures Flatten(a + b) == Flatten(a) + Flatten(b)
    decreases |a|
  {
    if a == [] {
      assert a + b == b;
    } else {
      assert (a + b)[0] == a[0];
      assert (a + b)[1..] == a[1..] + b;
      FlattenAppend(a[1..], b);
    }
  }

  /** A chunking whose pieces are all full, followed by any chunking, is a chunking of the concatenation. */
  lemma ConcatChunking<T>(a: seq<seq<T>>, b: seq<seq<T>>, s: seq<T>, t: seq<T>, n: nat)
    requires IsChunking(a, s, n) && IsChunking(b, t, n)
    requires forall k :: 0 <= k < |a| ==> |a[k]| == n
    ensures IsChunking(a + b, s + t, n)
  {
    FlattenAppend(a, b);
    assert forall k :: 0 <= k < |a| ==> (a + b)[k] == a[k];
    assert forall k :: |a| <= k < |a| + |b| ==> (a + b)[k] == b[k - |a|];
  }

  /**
   * When the first part's length is a multiple of chunkSize, chunking a
   * concatenation is concatenating the chunkings.
   */
  lemma ChunksAppend<T>(s: seq<T>, t: seq<T>, chunkSize: nat)
    requires chunkSize > 0
    requires |s| % chunkSize == 0
    ensures Chunks(s + t, chunkSize) == Chunks(s, chunkSize) + Chunks(t, chunkSize)
  {
    var a, b := Chunks(s, chunkSize), Chunks(t, chunkSize);
    ChunksIsChunking(s, chunkSize);
    ChunksIsChunking(t, chunkSize);
    if |a| > 0 {
      ChunkLength(s, chunkSize, |a| - 1);
    }
    ConcatChunking(a, b, s, t, chunkSize);
    ChunkingUnique(a + b, s + t, chunkSize);
  }

  /** Re-chunking the flattened chunks with the same size reproduces them: a corollary of FlattenChunks. */
  lemma Rechunk<T>(it: seq<T>, chunkSize: nat)
    requires chunkSize > 0
    ensures Chunks(Flatten(Chunks(it, chunkSize)), chunkSize) == Chunks(it, chunkSize)
  {
    FlattenChunks(it, chunkSize);
  }

  /** Worked examples of the result. */
  lemma Examples()
    ensures Chunks([1, 2, 3, 4, 5], 2) == [[1, 2], [3, 4], [5]]
    ensures Chunks([1, 2, 3, 4], 2) == [[1, 2], [3, 4]]
    ensures Chunks<int>([], 3) == []
  {
    ChunkingUnique([[1, 2], [3, 4], [5]], [1, 2, 3, 4, 5], 2);
    ChunkingUnique([[1, 2], [3, 4]], [1, 2, 3, 4], 2);
    ShortInput<int>([], 3);
  }
}
