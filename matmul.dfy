/** The threaded matrix-multiplication benchmark, without its thread pool: the
    deterministic input matrix, its transpose, the checksum of a band of rows of
    the product, and the fact that the bands `chunk_indices` hands to the workers
    add up to the checksum of the whole product, in whatever order they finish. */
module Matmul {
  import opened IntSums
  import opened Chunking

  type Matrix = seq<seq<int>>

  predicate Square(m: Matrix) {
    forall r :: 0 <= r < |m| ==> |m[r]| == |m|
  }

  /** `build_matrix(size)`: entry `(r, c)` is `(r + c) % 100`. */
  function BuildMatrix(size: int): (m: Matrix)
    ensures |m| == Max(size, 0) && Square(m)
    ensures forall r, c :: 0 <= r < |m| && 0 <= c < |m| ==> 0 <= m[r][c] < 100
  {
    seq(Max(size, 0), r => seq(Max(size, 0), c => (r + c) % 100))
  }

  /** `transpose(m)`: row `c` of the result is column `c` of `m`; rows shorter than
      `len(m)` would raise IndexError. */
  function Transpose(m: Matrix): (t: Matrix)
    requires forall r :: 0 <= r < |m| ==> |m[r]| >= |m|
    ensures |t| == |m| && Square(t)
    ensures forall c, r :: 0 <= c < |m| && 0 <= r < |m| ==> t[c][r] == m[r][c]
  {
    seq(|m|, c requires 0 <= c < |m| => seq(|m|, r requires 0 <= r < |m| => m[r][c]))
  }

  /** Transposing a square matrix twice gives it back. */
  lemma TransposeInvolution(m: Matrix)
    requires Square(m)
    ensures Transpose(Transpose(m)) == m
  {
    var t := Transpose(Transpose(m));
    assert forall r :: 0 <= r < |m| ==> t[r] == m[r];
  }

  /** The benchmark's matrix is symmetric, so its transpose is itself. */
  lemma BuildMatrixSymmetric(size: int)
    ensures Transpose(BuildMatrix(size)) == BuildMatrix(size)
  {
    var m := BuildMatrix(size);
    var t := Transpose(m);
    forall r | 0 <= r < |m|
      ensures t[r] == m[r]
    {
      assert forall c :: 0 <= c < |m| ==> t[r][c] == m[c][r] == (c + r) % 100 == m[r][c];
    }
  }

  /** `sum(l * r for l, r in zip(u, v))`: `zip` stops at the shorter row. */
  function Dot(u: seq<int>, v: seq<int>): int {
    if u == [] || v == [] then 0 else u[0] * v[0] + Dot(u[1..], v[1..])
  }

  /** The checksum of one product row: the row against every column in `cols`. */
  function RowChecksum(row: seq<int>, cols: Matrix): int {
    if cols == [] then 0 else RowChecksum(row, cols[..|cols| - 1]) + Dot(row, cols[|cols| - 1])
  }

  /** The checksum of product rows `[s, e)`; rows past the end of `left` would raise IndexError. */
  function SliceChecksum(s: int, e: int, left: Matrix, rightT: Matrix): int
    requires 0 <= s && (s < e ==> e <= |left|)
    decreases e - s
  {
    if e <= s then 0 else SliceChecksum(s, e - 1, left, rightT) + RowChecksum(left[e - 1], rightT)
  }

  /** Bands of rows add up. */
  lemma {:induction false} SliceChecksumSplit(s: int, m: int, e: int, left: Matrix, rightT: Matrix)
    requires 0 <= s <= m <= e <= |left|
    ensures SliceChecksum(s, e, left, rightT) == SliceChecksum(s, m, left, rightT) + SliceChecksum(m, e, left, rightT)
    decreases e - m
  {
    if m < e {
      SliceChecksumSplit(s, m, e - 1, left, rightT);
    }
  }

  /** `compute_checksum_for_row_slice`: the nested loops over rows `[s, e)` and over the
      columns of the transposed right matrix. */
  method ComputeChecksumForRowSlice(s: int, e: int, left: Matrix, rightT: Matrix) returns (checksum: int)
    requires 0 <= s && (s < e ==> e <= |left|)
    ensures checksum == SliceChecksum(s, e, left, rightT)
  {
    checksum := 0;
    var r := s;
    while r < e
      invariant if s < e then s <= r <= e else r == s
      invariant checksum == SliceChecksum(s, r, left, rightT)
      decreases e - r
    {
      var row := left[r];
      var c := 0;
      while c < |rightT|
        invariant 0 <= c <= |rightT|
        invariant checksum == SliceChecksum(s, r, left, rightT) + RowChecksum(row, rightT[..c])
      {
        assert rightT[..c + 1][..c] == rightT[..c];
        checksum := checksum + Dot(row, rightT[c]);
        c := c + 1;
      }
      assert rightT[..c] == rightT;
      r := r + 1;
    }
  }

  /** What a worker returns for the range `c`. */
  function ChunkChecksum(c: (int, int), left: Matrix, rightT: Matrix): int {
    if 0 <= c.0 && (c.0 < c.1 ==> c.1 <= |left|) then SliceChecksum(c.0, c.1, left, rightT) else 0
  }

  /** The results of the workers, in the order the ranges were handed out. */
  function ChunkChecksums(cs: seq<(int, int)>, left: Matrix, rightT: Matrix): seq<int> {
    seq(|cs|, j requires 0 <= j < |cs| => ChunkChecksum(cs[j], left, rightT))
  }

  lemma {:induction false} TilesChecksum(cs: seq<(int, int)>, lo: int, hi: int, left: Matrix, rightT: Matrix)
    requires Tiles(cs, lo, hi) && 0 <= lo && hi <= |left|
    ensures Sum(ChunkChecksums(cs, left, rightT)) == if lo < hi then SliceChecksum(lo, hi, left, rightT) else 0
    decreases |cs|
  {
    if cs != [] {
      TilesOrdered(cs, lo, hi);
      var sums := ChunkChecksums(cs, left, rightT);
      assert sums[1..] == ChunkChecksums(cs[1..], left, rightT);
      assert sums == [sums[0]] + sums[1..];
      SumAppend([sums[0]], sums[1..]);
      TilesChecksum(cs[1..], cs[0].1, hi, left, rightT);
      if cs[0].1 < hi {
        SliceChecksumSplit(lo, cs[0].1, hi, left, rightT);
      }
    }
  }

  /** With at least one worker, the workers' results, added in any order of completion,
      give the checksum of the whole product. */
  lemma MatmulTotal(left: Matrix, rightT: Matrix, workers: int, results: seq<int>)
    requires workers >= 1
    requires multiset(results) == multiset(ChunkChecksums(Chunks(|left|, workers).value, left, rightT))
    ensures Sum(results) == SliceChecksum(0, |left|, left, rightT)
  {
    ChunksPartition(|left|, workers);
    TilesChecksum(Chunks(|left|, workers).value, 0, |left|, left, rightT);
    SumPermutation(results, ChunkChecksums(Chunks(|left|, workers).value, left, rightT));
  }

  /** The sum of the workers' results is the sum of `ChunkChecksum` over the ranges. */
  lemma {:induction false} ChunkChecksumsSumBy(cs: seq<(int, int)>, left: Matrix, rightT: Matrix, f: ((int, int)) -> int)
    requires forall c :: f(c) == ChunkChecksum(c, left, rightT)
    ensures Sum(ChunkChecksums(cs, left, rightT)) == SumBy(cs, f)
    decreases |cs|
  {
    if cs != [] {
      assert ChunkChecksums(cs, left, rightT)[1..] == ChunkChecksums(cs[1..], left, rightT);
      ChunkChecksumsSumBy(cs[1..], left, rightT, f);
    }
  }

  /** `run_matmul_benchmark`: the square matrix of `build_matrix` times its own transpose,
      band by band, adding each worker's checksum as it completes. Whatever the order of
      completion, with at least one worker the total is the checksum of the whole product. */
  method RunMatmulBenchmark(size: int, workers: int, order: seq<(int, int)>) returns (total: int)
    requires workers >= 1
    requires multiset(order) == multiset(Chunks(size, workers).value)
    ensures total == SliceChecksum(0, Max(size, 0), BuildMatrix(size), BuildMatrix(size))
  {
    var left := BuildMatrix(size);
    var rightT := Transpose(BuildMatrix(size));
    BuildMatrixSymmetric(size);
    CompletionOrderBounds(size, workers, order);
    var f := (c: (int, int)) => ChunkChecksum(c, left, rightT);
    total := 0;
    var k := 0;
    while k < |order|
      invariant 0 <= k <= |order|
      invariant total == SumBy(order[..k], f)
    {
      var checksum := ComputeChecksumForRowSlice(order[k].0, order[k].1, left, rightT);
      SumByAppend(order[..k], [order[k]], f);
      assert order[..k + 1] == order[..k] + [order[k]];
      total := total + checksum;
      k := k + 1;
    }
    assert order[..k] == order;
    var cs := Chunks(size, workers).value;
    ChunksPartition(size, workers);
    SumByPermutation(order, cs, f);
    ChunkChecksumsSumBy(cs, left, rightT, f);
    TilesChecksum(cs, 0, size, left, rightT);
  }
}
