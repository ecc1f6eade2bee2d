/** The chunked write loop of `scripts/table_to_deltalake.py`: the planned table
    is sliced into pieces of `n_rows_per_chunk` rows, and every piece, up to and
    including the first empty one, is appended to the Delta table. */
module ChunkWriter {
  import opened Seqs
  import opened Partitioning

  /** `N_ROWS_PER_CHUNK` when the environment does not set it. */
  const DefaultRowsPerChunk: nat := 50_000_000

  /** `table.slice(start, len)`: the rows from `start` on, at most `len` of
      them; a slice that starts past the end is empty. */
  function Slice<T>(rows: seq<T>, start: nat, len: nat): (r: seq<T>)
    ensures |r| <= len
    ensures |r| == if start >= |rows| then 0 else if start + len <= |rows| then len else |rows| - start
    ensures start >= |rows| ==> r == []
    ensures start < |rows| && len > 0 ==> r != [] && r[0] == rows[start]
    ensures forall i :: 0 <= i < |r| ==> start + i < |rows| && r[i] == rows[start + i]
  {
    var lo := if start < |rows| then start else |rows|;
    var hi := if start + len < |rows| then start + len else |rows|;
    rows[lo..hi]
  }

  /** The slices the loop writes when it is at `start`: the slice there, and,
      unless it was empty, the slices from `start + size` on. */
  function ChunksFrom<T>(rows: seq<T>, start: nat, size: nat): (r: seq<seq<T>>)
    ensures r != [] && AllWithin(r, size)
    decreases |rows| - start
  {
    var chunk := Slice(rows, start, size);
    if chunk == [] then [chunk]
    else [chunk] + ChunksFrom(rows, start + size, size)
  }

  /** Every slice the loop writes, in order, starting from row 0. */
  function Chunks<T>(rows: seq<T>, size: nat): (r: seq<seq<T>>)
    ensures r != [] && AllWithin(r, size)
  {
    ChunksFrom(rows, 0, size)
  }

  /** No slice is longer than `size`. */
  predicate AllWithin<T>(chunks: seq<seq<T>>, size: nat) {
    forall k :: 0 <= k < |chunks| ==> |chunks[k]| <= size
  }

  /** The destination table, seen only through the slices appended to it. */
  class DeltaTableLog<T> {
    var appended: seq<seq<T>>

    constructor ()
      ensures appended == []
    {
      appended := [];
    }

    /** `write_deltalake(out_path, chunk, mode="append")`: records the chunk. */
    method WriteDeltalake(chunk: seq<T>)
      modifies this
      ensures appended == old(appended) + [chunk]
    {
      appended := appended + [chunk];
    }
  }

  /** The `while unfinished` loop: slice at `start`, stop after an empty slice
      and otherwise advance `start` by `n`, and write the slice either way. */
  method WriteInChunks<T>(rows: seq<T>, n: nat, log: DeltaTableLog<T>)
    modifies log
    ensures log.appended == old(log.appended) + Chunks(rows, n)
  {
    var unfinished := true;
    var start: nat := 0;
    ghost var k: nat := 0;
    while unfinished
      invariant start == k * n
      invariant unfinished ==> log.appended + ChunksFrom(rows, start, n) == old(log.appended) + Chunks(rows, n)
      invariant !unfinished ==> log.appended == old(log.appended) + Chunks(rows, n)
      decreases (if unfinished then 1 else 0) + (if start <= |rows| then |rows| - start else 0)
    {
      var chunkTable := Slice(rows, start, n);
      ghost var before := start;
      if chunkTable == [] {
        unfinished := false;
      } else {
        start := start + n;
        k := k + 1;
      }
      log.WriteDeltalake(chunkTable);
      if unfinished {
        assert ChunksFrom(rows, before, n) == [chunkTable] + ChunksFrom(rows, start, n);
      }
    }
  }

  // ---------------------------------------------------------------------------
  // What the written slices are

  /** With a positive chunk size the written slices put back together give the
      rows from `start` on: nothing is lost, repeated or reordered. */
  lemma {:induction false} FlattenChunksFrom<T>(rows: seq<T>, start: nat, size: nat)
    requires size > 0 && start <= |rows|
    ensures Flatten(ChunksFrom(rows, start, size)) == rows[start..]
    decreases |rows| - start
  {
    var chunk := Slice(rows, start, size);
    if chunk == [] {
      assert Flatten([chunk]) == chunk + Flatten([]);
    } else {
      var next := if start + size < |rows| then start + size else |rows|;
      assert chunk == rows[start..next];
      if start + size >= |rows| {
        ChunksFromClipped(rows, start + size, size);
      }
      FlattenChunksFrom(rows, next, size);
      assert ChunksFrom(rows, start + size, size) == ChunksFrom(rows, next, size);
      assert rows[start..] == rows[start..next] + rows[next..];
    }
  }

  /** Past the end, the loop only writes the one empty slice. */
  lemma ChunksFromClipped<T>(rows: seq<T>, start: nat, size: nat)
    requires start >= |rows|
    ensures ChunksFrom(rows, start, size) == [[]]
    ensures ChunksFrom(rows, start, size) == ChunksFrom(rows, |rows|, size)
  {
  }

  /** The slices written, concatenated, are the whole table. */
  lemma FlattenChunks<T>(rows: seq<T>, size: nat)
    requires size > 0
    ensures Flatten(Chunks(rows, size)) == rows
  {
    FlattenChunksFrom(rows, 0, size);
  }

  /** A chunk size of zero writes a single empty slice and none of the rows. */
  lemma ZeroChunkSizeWritesNothing<T>(rows: seq<T>)
    ensures Chunks(rows, 0) == [[]]
  {
  }

  /** Slice `k` of the loop started at `start` is the slice at
      `start + k * size`. */
  lemma {:induction false} ChunksFromAt<T>(rows: seq<T>, start: nat, size: nat)
    ensures forall k :: 0 <= k < |ChunksFrom(rows, start, size)| ==>
      ChunksFrom(rows, start, size)[k] == Slice(rows, start + k * size, size)
    decreases |rows| - start
  {
    var cs := ChunksFrom(rows, start, size);
    var chunk := Slice(rows, start, size);
    if chunk != [] {
      var rest := ChunksFrom(rows, start + size, size);
      ChunksFromAt(rows, start + size, size);
      assert cs == [chunk] + rest;
      forall k | 0 < k < |cs| ensures cs[k] == Slice(rows, start + k * size, size) {
        assert cs[k] == rest[k - 1];
        assert start + size + (k - 1) * size == start + k * size;
      }
    }
  }

  /** The last slice the loop writes is empty and every earlier one is not. */
  lemma {:induction false} ChunksFromEnd<T>(rows: seq<T>, start: nat, size: nat)
    ensures |ChunksFrom(rows, start, size)| > 0
    ensures ChunksFrom(rows, start, size)[|ChunksFrom(rows, start, size)| - 1] == []
    ensures forall k :: 0 <= k < |ChunksFrom(rows, start, size)| - 1 ==> ChunksFrom(rows, start, size)[k] != []
    decreases |rows| - start
  {
    var cs := ChunksFrom(rows, start, size);
    var chunk := Slice(rows, start, size);
    if chunk != [] {
      var rest := ChunksFrom(rows, start + size, size);
      ChunksFromEnd(rows, start + size, size);
      assert cs == [chunk] + rest;
      forall k | 0 < k < |cs| - 1 ensures cs[k] != [] {
        assert cs[k] == rest[k - 1];
      }
    }
  }

  /** The `k`-th iteration writes rows `[k * size, k * size + size)`. */
  lemma ChunkAt<T>(rows: seq<T>, size: nat, k: nat)
    requires k < |Chunks(rows, size)|
    ensures Chunks(rows, size)[k] == Slice(rows, k * size, size)
  {
    ChunksFromAt(rows, 0, size);
  }

  /** No written slice is longer than the chunk size. */
  lemma ChunksBounded<T>(rows: seq<T>, size: nat)
    ensures forall c :: c in Chunks(rows, size) ==> |c| <= size
  {
    ChunksFromAt(rows, 0, size);
  }

  /** The loop stops at the first empty slice, and writes it. */
  lemma LastChunkEmpty<T>(rows: seq<T>, size: nat)
    ensures Chunks(rows, size) != []
    ensures Chunks(rows, size)[|Chunks(rows, size)| - 1] == []
    ensures forall k :: 0 <= k < |Chunks(rows, size)| - 1 ==> Chunks(rows, size)[k] != []
  {
    ChunksFromEnd(rows, 0, size);
  }

  /** The loop writes `ceil(|rows| / size)` slices of data and then the empty
      slice. */
  lemma {:induction false} ChunksFromCount<T>(rows: seq<T>, start: nat, size: nat)
    requires size > 0 && start <= |rows|
    ensures |ChunksFrom(rows, start, size)| == (|rows| - start + size - 1) / size + 1
    decreases |rows| - start
  {
    if start < |rows| {
      var next := if start + size < |rows| then start + size else |rows|;
      if start + size >= |rows| {
        ChunksFromClipped(rows, start + size, size);
      }
      ChunksFromCount(rows, next, size);
      assert ChunksFrom(rows, start + size, size) == ChunksFrom(rows, next, size);
      CeilStep(|rows| - start, size);
    }
  }

  /** `ceil(m / size) == ceil((m - size) / size) + 1` for `m > 0`, where a
      negative `m - size` counts as zero. */
  lemma CeilStep(m: nat, size: nat)
    requires m > 0 && size > 0
    ensures (m + size - 1) / size == (if m > size then (m - size + size - 1) / size else 0) + 1
  {
    var q := (m - 1) / size;
    assert m + size - 1 == (m - 1) + size;
    DivPlusDivisor(m - 1, size);
    if m > size {
      assert m - size + size - 1 == m - 1;
      DivPlusDivisor(m - size - 1, size);
      assert (m - size - 1) + size == m - 1;
    } else {
      assert (m - 1) / size == 0;
    }
  }

  lemma DivPlusDivisor(a: nat, d: nat)
    requires d > 0
    ensures (a + d) / d == a / d + 1
  {
    var q, r := a / d, a % d;
    assert a == q * d + r;
    assert a + d == (q + 1) * d + r;
    DivUnique(a + d, d, q + 1, r);
  }

  /** The quotient is the only `q` with `x == q * d + r` and `0 <= r < d`. */
  lemma DivUnique(x: int, d: int, q: int, r: int)
    requires d > 0 && x == q * d + r && 0 <= r < d
    ensures x / d == q
  {
    var q2, r2 := x / d, x % d;
    assert q2 * d + r2 == q * d + r;
    if q2 > q {
      ProductAtLeast(q2 - q, d);
    } else if q2 < q {
      ProductAtLeast(q - q2, d);
    }
  }

  lemma ChunkCount<T>(rows: seq<T>, size: nat)
    requires size > 0
    ensures |Chunks(rows, size)| == (|rows| + size - 1) / size + 1
  {
    ChunksFromCount(rows, 0, size);
  }

  /** With the default chunk size, a table of 120 million rows is written in
      three slices of data followed by the empty slice. */
  lemma DefaultChunkingExample<T>(rows: seq<T>)
    requires |rows| == 120_000_000
    ensures |Chunks(rows, DefaultRowsPerChunk)| == 4
    ensures |Chunks(rows, DefaultRowsPerChunk)[2]| == 20_000_000
  {
    ChunkCount(rows, DefaultRowsPerChunk);
    ChunkAt(rows, DefaultRowsPerChunk, 2);
  }
}
