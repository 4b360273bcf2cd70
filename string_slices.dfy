/** The two threaded string-list benchmarks, without their thread pools: a list of
    deterministic records whose slices are upper-cased, either in place in the shared
    list or into per-worker copies that are stitched back into a fresh list. The
    order in which the workers finish is an input: any permutation of the ranges
    `chunk_indices` hands out. */
module StringSlices {
  import opened Wrappers
  import opened Text
  import opened Chunking

  /** Record `i` of `build_strings`. */
  function Record(i: nat): string {
    "name" + NatToString(i) + " middleName" + NatToString(i) + " surname" + NatToString(i)
  }

  /** `build_strings(n)`. */
  function BuildStrings(n: int): seq<string> {
    seq(Max(n, 0), i requires 0 <= i => Record(i))
  }

  lemma UpperAppend(a: string, b: string)
    ensures Upper(a + b) == Upper(a) + Upper(b)
  {
    assert forall i :: 0 <= i < |a + b| ==> Upper(a + b)[i] == (Upper(a) + Upper(b))[i];
  }

  lemma UpperDigits(n: nat)
    ensures Upper(NatToString(n)) == NatToString(n)
  {
  }

  /** Upper-casing a record capitalises its three words and keeps its numbers. */
  lemma UpperRecord(i: nat)
    ensures Upper(Record(i))
         == "NAME" + NatToString(i) + " MIDDLENAME" + NatToString(i) + " SURNAME" + NatToString(i)
  {
    var d := NatToString(i);
    UpperDigits(i);
    UpperAppend("name", d);
    UpperAppend("name" + d, " middleName");
    UpperAppend("name" + d + " middleName", d);
    UpperAppend("name" + d + " middleName" + d, " surname");
    UpperAppend("name" + d + " middleName" + d + " surname", d);
    assert Upper("name") == "NAME";
    assert Upper(" middleName") == " MIDDLENAME";
    assert Upper(" surname") == " SURNAME";
  }

  /** Upper-casing twice is upper-casing once. */
  lemma UpperIdempotent(s: string)
    ensures Upper(Upper(s)) == Upper(s)
  {
  }

  /** The list with the records at positions `[start, end)` upper-cased. */
  function UpperRange(xs: seq<string>, start: int, end: int): seq<string> {
    seq(|xs|, i requires 0 <= i < |xs| => if start <= i < end then Upper(xs[i]) else xs[i])
  }

  /** Every record upper-cased. */
  function UpperAll(xs: seq<string>): seq<string> {
    seq(|xs|, i requires 0 <= i < |xs| => Upper(xs[i]))
  }

  /** `process_slice_in_place`: upper-cases `records[start:end]` in the shared list and
      touches nothing else. */
  method ProcessSliceInPlace(start: int, end: int, records: array<string>)
    requires 0 <= start && (start < end ==> end <= records.Length)
    modifies records
    ensures records[..] == UpperRange(old(records[..]), start, end)
  {
    var idx := start;
    assert records[..] == UpperRange(old(records[..]), start, idx);
    while idx < end
      invariant if start < end then start <= idx <= end else idx == start
      invariant records[..] == UpperRange(old(records[..]), start, idx)
    {
      var original := records[idx];
      records[idx] := Upper(original);
      idx := idx + 1;
    }
    assert UpperRange(old(records[..]), start, idx) == UpperRange(old(records[..]), start, end);
  }

  /** Position `i` lies in one of the ranges `cs`. */
  predicate Covered(cs: seq<(int, int)>, i: int) {
    exists j :: 0 <= j < |cs| && InRange(cs[j], i)
  }

  lemma CoveredSnoc(cs: seq<(int, int)>, c: (int, int), i: int)
    ensures Covered(cs + [c], i) <==> Covered(cs, i) || InRange(c, i)
  {
    var cs' := cs + [c];
    if Covered(cs, i) {
      var j :| 0 <= j < |cs| && InRange(cs[j], i);
      assert cs'[j] == cs[j];
    }
    if InRange(c, i) {
      assert cs'[|cs|] == c;
    }
    if Covered(cs', i) {
      var j :| 0 <= j < |cs'| && InRange(cs'[j], i);
      if j < |cs| {
        assert cs[j] == cs'[j];
      }
    }
  }

  /** Any completion order of the ranges `chunk_indices(n, workers)` yields lies inside
      `[0, n)` and covers all of it. */
  lemma OrderCovers(n: int, workers: int, order: seq<(int, int)>)
    requires workers >= 1
    requires multiset(order) == multiset(Chunks(n, workers).value)
    ensures forall j :: 0 <= j < |order| ==> 0 <= order[j].0 < order[j].1 <= n
    ensures forall i :: 0 <= i < n ==> Covered(order, i)
  {
    var cs := Chunks(n, workers).value;
    ChunksPartition(n, workers);
    TilesOrdered(cs, 0, n);
    CompletionOrderBounds(n, workers, order);
    forall i | 0 <= i < n
      ensures Covered(order, i)
    {
      TilesCoverOnce(cs, 0, n, i);
      var k :| 0 <= k < |cs| && InRange(cs[k], i);
      assert cs[k] in multiset(order);
      var j :| 0 <= j < |order| && order[j] == cs[k];
    }
  }

  /** The records covered by the ranges handled so far are upper-cased, the rest untouched. */
  function UpperWhere(xs: seq<string>, cs: seq<(int, int)>): seq<string> {
    seq(|xs|, i requires 0 <= i < |xs| => if Covered(cs, i) then Upper(xs[i]) else xs[i])
  }

  /** Handling one more range upper-cases exactly what it covers; a record covered twice
      would come out the same, since upper-casing is idempotent. */
  lemma UpperWhereStep(xs: seq<string>, cs: seq<(int, int)>, c: (int, int))
    ensures UpperRange(UpperWhere(xs, cs), c.0, c.1) == UpperWhere(xs, cs + [c])
  {
    forall i | 0 <= i < |xs|
      ensures UpperRange(UpperWhere(xs, cs), c.0, c.1)[i] == UpperWhere(xs, cs + [c])[i]
    {
      CoveredSnoc(cs, c, i);
      UpperIdempotent(xs[i]);
    }
  }

  /** `run_object_list_benchmark` of the in-place variant: whatever the order in which the
      workers finish, with at least one worker every record of the shared list ends
      upper-cased. */
  method RunInPlace(records: array<string>, workers: int, order: seq<(int, int)>)
    requires workers >= 1
    requires multiset(order) == multiset(Chunks(records.Length, workers).value)
    modifies records
    ensures records[..] == UpperAll(old(records[..]))
  {
    OrderCovers(records.Length, workers, order);
    ghost var xs := records[..];
    assert records[..] == UpperWhere(xs, order[..0]);
    var k := 0;
    while k < |order|
      invariant 0 <= k <= |order|
      invariant records[..] == UpperWhere(xs, order[..k])
    {
      var c := order[k];
      ProcessSliceInPlace(c.0, c.1, records);
      UpperWhereStep(xs, order[..k], c);
      assert order[..k + 1] == order[..k] + [c];
      k := k + 1;
    }
    assert order[..k] == order;
  }

  /** `process_slice_copy`: a fresh list holding the upper-cased records of `[start, end)`,
      returned with `start`; the shared list is only read. */
  method ProcessSliceCopy(start: int, end: int, records: seq<string>) returns (s: int, local: seq<Option<string>>)
    requires 0 <= start && (start < end ==> end <= |records|)
    ensures s == start && |local| == Max(end - start, 0)
    ensures forall i :: 0 <= i < |local| ==> local[i] == Some(Upper(records[start + i]))
  {
    local := seq(Max(end - start, 0), _ => None);
    var idx := start;
    while idx < end
      invariant if start < end then start <= idx <= end else idx == start
      invariant |local| == Max(end - start, 0)
      invariant forall i :: 0 <= i < |local| ==> local[i] == if i < idx - start then Some(Upper(records[start + i])) else None
    {
      var original := records[idx];
      local := local[idx - start := Some(Upper(original))];
      idx := idx + 1;
    }
    s := start;
  }

  /** The output list once the ranges `cs` have been stitched in: upper-cased records where
      covered, still `None` elsewhere. */
  function Filled(xs: seq<string>, cs: seq<(int, int)>): seq<Option<string>> {
    seq(|xs|, i requires 0 <= i < |xs| => if Covered(cs, i) then Some(Upper(xs[i])) else None)
  }

  /** Stitching a worker's copy into its range fills exactly that range. */
  lemma FilledStep(xs: seq<string>, cs: seq<(int, int)>, c: (int, int), local: seq<Option<string>>)
    requires 0 <= c.0 < c.1 <= |xs| && |local| == c.1 - c.0
    requires forall i :: 0 <= i < |local| ==> local[i] == Some(Upper(xs[c.0 + i]))
    ensures Filled(xs, cs)[..c.0] + local + Filled(xs, cs)[c.1..] == Filled(xs, cs + [c])
  {
    var before := Filled(xs, cs);
    var after := before[..c.0] + local + before[c.1..];
    forall i | 0 <= i < |xs|
      ensures after[i] == Filled(xs, cs + [c])[i]
    {
      CoveredSnoc(cs, c, i);
      if i < c.0 {
        assert after[i] == before[i];
      } else if i < c.1 {
        assert after[i] == local[i - c.0];
      } else {
        assert after[i] == before[c.1..][i - c.1] == before[i];
      }
    }
  }

  /** `run_object_list_benchmark` of the copy variant: whatever the order in which the
      workers finish, with at least one worker the stitched list holds every record
      upper-cased, and the shared list is left as it was. */
  method RunSliceCopy(records: seq<string>, workers: int, order: seq<(int, int)>) returns (final: seq<Option<string>>)
    requires workers >= 1
    requires multiset(order) == multiset(Chunks(|records|, workers).value)
    ensures |final| == |records|
    ensures forall i :: 0 <= i < |records| ==> final[i] == Some(Upper(records[i]))
  {
    OrderCovers(|records|, workers, order);
    final := seq(|records|, _ => None);
    assert final == Filled(records, order[..0]);
    var k := 0;
    while k < |order|
      invariant 0 <= k <= |order|
      invariant final == Filled(records, order[..k])
    {
      var s, local := ProcessSliceCopy(order[k].0, order[k].1, records);
      FilledStep(records, order[..k], order[k], local);
      final := final[..s] + local + final[s + |local|..];
      assert order[..k + 1] == order[..k] + [order[k]];
      k := k + 1;
    }
    assert order[..k] == order;
  }
}
