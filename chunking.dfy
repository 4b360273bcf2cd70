/** `chunk_indices`, the generator every threaded benchmark uses to cut `total`
    items into at most `workers` contiguous `[start, end)` ranges, one per worker.
    The matrix, people and string benchmarks each carry an identical copy. */
module Chunking {
  import opened Wrappers

  function Min(a: int, b: int): int { if a <= b then a else b }

  function Max(a: int, b: int): int { if a <= b then b else a }

  /** The ranges the generator yields from `start` on, with `remaining` workers left. */
  function ChunksFrom(total: int, size: int, start: int, remaining: int): seq<(int, int)>
    decreases remaining
  {
    if remaining <= 0 || start >= total then []
    else [(start, Min(start + size, total))] + ChunksFrom(total, size, start + size, remaining - 1)
  }

  /** What `list(chunk_indices(total, workers))` yields; workers == 0 divides by zero.
      For negative `workers` the per-worker size is never used, since `range(workers)` is empty. */
  function Chunks(total: int, workers: int): (r: Result<seq<(int, int)>>)
    ensures r.Err? <==> workers == 0
    ensures r.Err? ==> r.error == ZeroDivisionError
    ensures workers < 0 ==> r == Ok([])
  {
    if workers == 0 then Err(ZeroDivisionError)
    else Ok(ChunksFrom(total, (total + workers - 1) / workers, 0, workers))
  }

  /** The generator as a loop over worker indices with its early `break`. */
  method ChunkIndices(total: int, workers: int) returns (r: Result<seq<(int, int)>>)
    ensures r == Chunks(total, workers)
  {
    if workers == 0 {
      return Err(ZeroDivisionError);
    }
    var size := (total + workers - 1) / workers;
    var chunks: seq<(int, int)> := [];
    var k := 0;
    while k < workers
      invariant 0 <= k && (workers > 0 ==> k <= workers)
      invariant chunks + ChunksFrom(total, size, k * size, workers - k) == ChunksFrom(total, size, 0, workers)
    {
      var start := k * size;
      var end := Min(start + size, total);
      if start >= total {
        break;
      }
      assert (k + 1) * size == start + size;
      assert ChunksFrom(total, size, start, workers - k) == [(start, end)] + ChunksFrom(total, size, start + size, workers - k - 1);
      chunks := chunks + [(start, end)];
      k := k + 1;
    }
    assert ChunksFrom(total, size, k * size, workers - k) == [];
    assert chunks + [] == chunks;
    return Ok(chunks);
  }

  /** `cs` cuts `[lo, hi)` into non-empty ranges, in order, each starting where the previous one ends. */
  predicate Tiles(cs: seq<(int, int)>, lo: int, hi: int)
    decreases |cs|
  {
    if cs == [] then lo >= hi
    else cs[0].0 == lo && lo < cs[0].1 <= hi && Tiles(cs[1..], cs[0].1, hi)
  }

  lemma MulNonPositive(r: int, s: int)
    requires r <= 0 && s >= 1
    ensures r * s <= 0
  {
  }

  lemma {:induction false} ChunksFromTile(total: int, size: int, start: int, remaining: int)
    requires size >= 1
    requires start < total ==> remaining * size >= total - start
    ensures Tiles(ChunksFrom(total, size, start, remaining), start, total)
    ensures |ChunksFrom(total, size, start, remaining)| <= Max(remaining, 0)
    ensures forall c :: c in ChunksFrom(total, size, start, remaining) ==> c.1 - c.0 <= size
    decreases remaining
  {
    if remaining <= 0 {
      MulNonPositive(remaining, size);
    } else if start < total {
      assert (remaining - 1) * size == remaining * size - size;
      ChunksFromTile(total, size, start + size, remaining - 1);
    }
  }

  lemma CeilDivCovers(total: int, workers: int)
    requires workers >= 1
    ensures workers * ((total + workers - 1) / workers) >= total
  {
    var q, m := (total + workers - 1) / workers, (total + workers - 1) % workers;
    assert total + workers - 1 == workers * q + m;
  }

  lemma CeilDivPositive(total: int, workers: int)
    requires workers >= 1 && total >= 1
    ensures (total + workers - 1) / workers >= 1
  {
  }

  /** For at least one worker: the chunks cut `[0, total)` exactly, there are at most
      `workers` of them, and none is longer than `ceil(total / workers)`. */
  lemma ChunksPartition(total: int, workers: int)
    requires workers >= 1
    ensures Chunks(total, workers).Ok?
    ensures Tiles(Chunks(total, workers).value, 0, total)
    ensures |Chunks(total, workers).value| <= workers
    ensures forall c :: c in Chunks(total, workers).value ==> c.1 - c.0 <= (total + workers - 1) / workers
  {
    var size := (total + workers - 1) / workers;
    if total >= 1 {
      CeilDivCovers(total, workers);
      CeilDivPositive(total, workers);
      ChunksFromTile(total, size, 0, workers);
    }
  }

  /** Every range of a tiling lies inside it, and later ranges start after earlier ones end. */
  lemma {:induction false} TilesOrdered(cs: seq<(int, int)>, lo: int, hi: int)
    requires Tiles(cs, lo, hi)
    ensures forall j :: 0 <= j < |cs| ==> lo <= cs[j].0 < cs[j].1 <= hi
    ensures forall j, k :: 0 <= j < k < |cs| ==> cs[j].1 <= cs[k].0
    decreases |cs|
  {
    if cs != [] {
      TilesOrdered(cs[1..], cs[0].1, hi);
      assert forall j :: 0 < j < |cs| ==> cs[j] == cs[1..][j - 1];
    }
  }

  /** The ranges the workers finish, in whatever order they finish: each one is a
      non-empty band inside `[0, total)`. */
  lemma CompletionOrderBounds(total: int, workers: int, order: seq<(int, int)>)
    requires workers >= 1
    requires multiset(order) == multiset(Chunks(total, workers).value)
    ensures forall j :: 0 <= j < |order| ==> 0 <= order[j].0 < order[j].1 <= total
  {
    var cs := Chunks(total, workers).value;
    ChunksPartition(total, workers);
    TilesOrdered(cs, 0, total);
    forall j | 0 <= j < |order|
      ensures 0 <= order[j].0 < order[j].1 <= total
    {
      assert order[j] in multiset(cs);
      var k :| 0 <= k < |cs| && cs[k] == order[j];
    }
  }

  predicate InRange(c: (int, int), i: int) {
    c.0 <= i < c.1
  }

  /** Each position of a tiled range falls in exactly one of its ranges. */
  lemma {:induction false} TilesCoverOnce(cs: seq<(int, int)>, lo: int, hi: int, i: int)
    requires Tiles(cs, lo, hi) && lo <= i < hi
    ensures exists j :: 0 <= j < |cs| && InRange(cs[j], i)
    ensures forall j, k :: 0 <= j < |cs| && 0 <= k < |cs| && InRange(cs[j], i) && InRange(cs[k], i) ==> j == k
    decreases |cs|
  {
    TilesOrdered(cs, lo, hi);
    if i >= cs[0].1 {
      TilesCoverOnce(cs[1..], cs[0].1, hi, i);
      var j :| 0 <= j < |cs[1..]| && InRange(cs[1..][j], i);
      assert InRange(cs[j + 1], i);
    } else {
      assert InRange(cs[0], i);
    }
  }

  /** The pieces of `xs` that the ranges select. */
  function Pieces<T>(xs: seq<T>, cs: seq<(int, int)>): seq<seq<T>>
    requires forall c :: c in cs ==> 0 <= c.0 <= c.1 <= |xs|
  {
    seq(|cs|, j requires 0 <= j < |cs| => xs[cs[j].0..cs[j].1])
  }

  function Concat<T>(pieces: seq<seq<T>>): seq<T> {
    if pieces == [] then [] else pieces[0] + Concat(pieces[1..])
  }

  /** Gluing the selected pieces of a tiling back together gives the tiled range. */
  lemma {:induction false} PiecesConcat<T>(xs: seq<T>, cs: seq<(int, int)>, lo: int, hi: int)
    requires Tiles(cs, lo, hi) && 0 <= lo && hi <= |xs|
    ensures forall c :: c in cs ==> 0 <= c.0 <= c.1 <= |xs|
    ensures Concat(Pieces(xs, cs)) == if lo < hi then xs[lo..hi] else []
    decreases |cs|
  {
    TilesOrdered(cs, lo, hi);
    if cs != [] {
      PiecesConcat(xs, cs[1..], cs[0].1, hi);
      assert Pieces(xs, cs)[1..] == Pieces(xs, cs[1..]);
      if cs[0].1 < hi {
        assert xs[lo..hi] == xs[lo..cs[0].1] + xs[cs[0].1..hi];
      } else {
        assert Concat(Pieces(xs, cs[1..])) == [];
        assert xs[lo..cs[0].1] + [] == xs[lo..hi];
      }
    }
  }
}
