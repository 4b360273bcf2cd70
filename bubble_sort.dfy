/** The sequential bubble-sort benchmark: a descending list of integers, sorted
    in place by adjacent swaps with an early exit once a pass swaps nothing. */
module BubbleSort {
  import opened IntSums

  /** `list(range(count, 0, -1))`: count, count - 1, ..., 1. */
  function BuildNumbers(count: int): (r: seq<int>)
    ensures |r| == if count > 0 then count else 0
    ensures forall i :: 0 <= i < |r| ==> r[i] == count - i
    decreases count
  {
    if count <= 0 then [] else [count] + BuildNumbers(count - 1)
  }

  predicate Sorted(s: seq<int>) {
    forall i, j :: 0 <= i < j < |s| ==> s[i] <= s[j]
  }

  /** Every value before position `p` is at most every value from `p` on. */
  predicate Settled(s: seq<int>, p: int) {
    forall k, l :: 0 <= k < p <= l < |s| ==> s[k] <= s[l]
  }

  /** The benchmark's input is strictly descending, so every pair is out of order. */
  lemma BuildNumbersDescending(count: int)
    ensures forall i, j :: 0 <= i < j < |BuildNumbers(count)| ==> BuildNumbers(count)[i] > BuildNumbers(count)[j]
  {
  }

  /** The checksum of the benchmark's input is the triangular number of its size. */
  lemma {:induction false} BuildNumbersChecksum(count: nat)
    ensures 2 * Sum(BuildNumbers(count)) == count * (count + 1)
  {
    if count > 0 {
      var r := BuildNumbers(count);
      assert r == [count] + BuildNumbers(count - 1);
      assert r[1..] == BuildNumbers(count - 1);
      BuildNumbersChecksum(count - 1);
    }
  }

  lemma {:induction false} AdjacentSorted(s: seq<int>)
    requires forall k :: 0 <= k < |s| - 1 ==> s[k] <= s[k + 1]
    ensures Sorted(s)
    decreases |s|
  {
    if |s| > 1 {
      AdjacentSorted(s[1..]);
      forall i, j | 0 <= i < j < |s|
        ensures s[i] <= s[j]
      {
        assert s[j] == s[1..][j - 1];
        if i > 0 {
          assert s[i] == s[1..][i - 1];
        } else {
          assert s[1] == s[1..][0];
        }
      }
    }
  }

  lemma SortedJoin(s: seq<int>, p: int)
    requires 0 <= p <= |s|
    requires Sorted(s[..p]) && Sorted(s[p..]) && Settled(s, p)
    ensures Sorted(s)
  {
    forall i, j | 0 <= i < j < |s|
      ensures s[i] <= s[j]
    {
      if j < p {
        assert s[i] == s[..p][i] && s[j] == s[..p][j];
      } else if p <= i {
        assert s[i] == s[p..][i - p] && s[j] == s[p..][j - p];
      }
    }
  }

  /** After a pass over `[0, m)` moved the largest value to `m - 1`, that value is at
      most every value after it. */
  lemma PassSettles(before: seq<int>, after: seq<int>, m: int)
    requires 1 <= m <= |before| == |after|
    requires multiset(after[..m]) == multiset(before[..m]) && after[m..] == before[m..]
    requires forall k :: 0 <= k < m ==> after[k] <= after[m - 1]
    requires Settled(before, m)
    ensures Settled(after, m - 1)
    ensures forall l :: m <= l < |after| ==> after[m - 1] <= after[l]
  {
    assert after[m - 1] in multiset(before[..m]) by {
      assert after[m - 1] == after[..m][m - 1];
    }
    var k0 :| 0 <= k0 < m && before[k0] == after[m - 1];
    assert forall l :: m <= l < |after| ==> after[l] == before[m..][l - m] == before[l];
  }

  /** ... and the sorted tail grows by that one position. */
  lemma PassExtendsTail(before: seq<int>, after: seq<int>, m: int)
    requires 1 <= m <= |before| == |after|
    requires after[m..] == before[m..]
    requires Sorted(before[m..])
    requires forall l :: m <= l < |after| ==> after[m - 1] <= after[l]
    ensures Sorted(after[m - 1..])
  {
    var tail := after[m - 1..];
    forall i, j | 0 <= i < j < |tail|
      ensures tail[i] <= tail[j]
    {
      assert tail[j] == before[m..][j - 1];
      if i > 0 {
        assert tail[i] == before[m..][i - 1];
      } else {
        assert tail[i] == after[m - 1] && tail[j] == after[m - 1 + j];
      }
    }
  }

  /** Swapping the out-of-order pair at `j` keeps the values of `[0, m)`, leaves the
      rest alone, and carries the running maximum one step right. */
  lemma SwapStep(before: seq<int>, after: seq<int>, j: int, m: int)
    requires 0 <= j && j + 1 < m <= |before|
    requires after == before[j := before[j + 1]][j + 1 := before[j]]
    requires before[j] > before[j + 1]
    requires forall k :: 0 <= k <= j ==> before[k] <= before[j]
    ensures multiset(after[..m]) == multiset(before[..m])
    ensures after[m..] == before[m..]
    ensures forall k :: 0 <= k <= j + 1 ==> after[k] <= after[j + 1]
  {
    assert after[..m] == before[..m][j := before[j + 1]][j + 1 := before[j]];
  }

  /** What holds after the inner loop has compared the pairs before `j`, starting from `s0`. */
  predicate PassInvariant(s0: seq<int>, s: seq<int>, m: int, j: int, swapped: bool) {
    && |s| == |s0| && 0 <= j < m <= |s|
    && multiset(s[..m]) == multiset(s0[..m]) && s[m..] == s0[m..]
    && (forall k :: 0 <= k <= j ==> s[k] <= s[j])
    && (!swapped ==> s == s0 && forall k :: 0 <= k < j ==> s[k] <= s[k + 1])
    && (Sorted(s0[..m]) ==> !swapped)
  }

  lemma PassSwapStep(s0: seq<int>, s: seq<int>, m: int, j: int, swapped: bool)
    requires PassInvariant(s0, s, m, j, swapped) && j < m - 1 && s[j] > s[j + 1]
    ensures PassInvariant(s0, s[j := s[j + 1]][j + 1 := s[j]], m, j + 1, true)
  {
    SwapStep(s, s[j := s[j + 1]][j + 1 := s[j]], j, m);
    if !swapped {
      assert s0[..m][j] == s[j] && s0[..m][j + 1] == s[j + 1];
    }
  }

  lemma PassKeepStep(s0: seq<int>, s: seq<int>, m: int, j: int, swapped: bool)
    requires PassInvariant(s0, s, m, j, swapped) && j < m - 1 && s[j] <= s[j + 1]
    ensures PassInvariant(s0, s, m, j + 1, swapped)
  {
  }

  /** What one pass over `[0, m)` achieves, from `s0` to `s`: the values of `[0, m)`
      are rearranged among themselves, the rest stays, the largest of them ends at
      `m - 1`; nothing moved iff `swapped` is false, and then `[0, m)` was already sorted. */
  predicate PassResult(s0: seq<int>, s: seq<int>, m: int, swapped: bool) {
    && |s| == |s0| && 1 <= m <= |s|
    && multiset(s[..m]) == multiset(s0[..m]) && s[m..] == s0[m..]
    && (forall k :: 0 <= k < m ==> s[k] <= s[m - 1])
    && (!swapped ==> s == s0 && Sorted(s[..m]))
    && (Sorted(s0[..m]) ==> !swapped)
  }

  /** One pass of the inner loop over `[0, m)`: adjacent out-of-order pairs are swapped,
      and `swapped` records whether any was. */
  method BubblePass(a: array<int>, m: int) returns (swapped: bool)
    requires 1 <= m <= a.Length
    modifies a
    ensures PassResult(old(a[..]), a[..], m, swapped)
  {
    swapped := false;
    var j := 0;
    while j < m - 1
      invariant PassInvariant(old(a[..]), a[..], m, j, swapped)
    {
      ghost var before := a[..];
      if a[j] > a[j + 1] {
        PassSwapStep(old(a[..]), before, m, j, swapped);
        a[j], a[j + 1] := a[j + 1], a[j];
        assert a[..] == before[j := before[j + 1]][j + 1 := before[j]];
        swapped := true;
      } else {
        PassKeepStep(old(a[..]), before, m, j, swapped);
      }
      j := j + 1;
    }
    if !swapped {
      AdjacentSorted(a[..m]);
    }
  }

  function Min(a: int, b: int): int { if a <= b then a else b }

  /** What holds after `i` outer passes over `s0`: the same values, the last `i` of
      them sorted and no smaller than any before them, and nothing moved yet if `s0`
      was already sorted. */
  predicate SortInvariant(s0: seq<int>, s: seq<int>, i: int) {
    && |s| == |s0| && 0 <= i <= |s|
    && multiset(s) == multiset(s0)
    && Sorted(s[|s| - i..]) && Settled(s, |s| - i)
    && (Sorted(s0) ==> s == s0 && i == 0)
  }

  /** A pass that swapped something extends the sorted tail by one. */
  lemma SortStep(s0: seq<int>, before: seq<int>, after: seq<int>, i: int)
    requires SortInvariant(s0, before, i) && i < |before|
    requires PassResult(before, after, |before| - i, true)
    ensures SortInvariant(s0, after, i + 1)
  {
    var m := |before| - i;
    PassSettles(before, after, m);
    PassExtendsTail(before, after, m);
    assert after == after[..m] + after[m..] && before == before[..m] + before[m..];
    assert i == 0 ==> before[..m] == before;
  }

  /** A pass that swapped nothing leaves the whole sequence sorted. */
  lemma SortDone(s0: seq<int>, before: seq<int>, after: seq<int>, i: int)
    requires SortInvariant(s0, before, i) && i < |before|
    requires PassResult(before, after, |before| - i, false)
    ensures Sorted(after) && multiset(after) == multiset(s0)
    ensures Sorted(s0) ==> after == s0 && i == 0
  {
    SortedJoin(after, |after| - i);
  }

  /** After as many passes as values, all of them are settled. */
  lemma SortFinish(s0: seq<int>, s: seq<int>)
    requires SortInvariant(s0, s, |s|)
    ensures Sorted(s) && multiset(s) == multiset(s0)
    ensures Sorted(s0) ==> s == s0 && |s| == 0
  {
    assert s == s[0..];
  }

  /** Outer iteration `i` of `bubble_sort`: one pass over the unsorted front. */
  method OuterPass(a: array<int>, i: int, ghost s0: seq<int>) returns (swapped: bool)
    requires SortInvariant(s0, a[..], i) && i < a.Length
    modifies a
    ensures swapped ==> SortInvariant(s0, a[..], i + 1)
    ensures !swapped ==> Sorted(a[..]) && multiset(a[..]) == multiset(s0)
    ensures !swapped ==> Sorted(s0) ==> a[..] == s0 && i == 0
  {
    ghost var before := a[..];
    swapped := BubblePass(a, a.Length - i);
    if swapped {
      SortStep(s0, before, a[..], i);
    } else {
      SortDone(s0, before, a[..], i);
    }
  }

  /** `bubble_sort(values)`: the array ends sorted and holds the same values. `passes`
      counts the outer iterations run; an input already sorted takes a single pass and
      is left untouched. */
  method Sort(a: array<int>) returns (passes: nat)
    modifies a
    ensures Sorted(a[..])
    ensures multiset(a[..]) == multiset(old(a[..]))
    ensures passes <= a.Length
    ensures Sorted(old(a[..])) ==> a[..] == old(a[..]) && passes == Min(1, a.Length)
  {
    var n := a.Length;
    var i := 0;
    passes := 0;
    while i < n
      invariant passes == i
      invariant SortInvariant(old(a[..]), a[..], i)
    {
      var swapped := OuterPass(a, i, old(a[..]));
      passes := passes + 1;
      if !swapped {
        return;
      }
      i := i + 1;
    }
    SortFinish(old(a[..]), a[..]);
  }
}
