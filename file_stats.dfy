/** The current `FileStats`: the core count read from the column names, the
    dominant core of a row, the Gini-based load-disparity score of a row, and the
    walk over a label window that counts dominant-core changes and the time spent
    with a dominant core. The loaded table is a value (`Stats`); reading the CSV
    file is not modelled. The window, task times, averages and minima/maxima are
    the shared ones of `LabelWindow`. */
module FileStats {
  import opened Wrappers
  import opened Text
  import opened Ordering
  import opened LabelWindow

  predicate IsDigits(s: string) {
    |s| > 0 && forall i :: 0 <= i < |s| ==> '0' <= s[i] <= '9'
  }

  /** A whole name of the form `core_<digits>_usage`. */
  predicate IsCoreName(s: string) {
    |s| >= 12 && s[..5] == "core_" && s[|s| - 6..] == "_usage" && IsDigits(s[5..|s| - 6])
  }

  /** `re.match(r'^core_\d+_usage$', col).group(0)`, None when it does not match.
      `$` also matches just before a final newline, which the matched text leaves out. */
  function CoreMatch(col: string): (m: Option<string>)
    ensures m.Some? ==> IsCoreName(m.value)
  {
    if IsCoreName(col) then Some(col)
    else if |col| > 0 && col[|col| - 1] == '\n' && IsCoreName(col[..|col| - 1]) then Some(col[..|col| - 1])
    else None
  }

  /** A column matches with the text `x` exactly when it is the core name `x`,
      possibly followed by one newline. */
  lemma CoreMatchSpec(col: string, x: string)
    ensures CoreMatch(col) == Some(x) <==> IsCoreName(x) && (col == x || col == x + "\n")
  {
    if col == x + "\n" {
      assert col[|col| - 1] == '\n';
      assert col[..|col| - 1] == x;
    }
  }

  /** The set of distinct matched core names among the columns. */
  function CoreNamesIn(columns: seq<string>): set<string> {
    set c | c in columns && CoreMatch(c).Some? :: CoreMatch(c).value
  }

  /** `count_cores_in_dataframe`: the number of distinct matched core names. */
  function CountCores(columns: seq<string>): nat {
    |CoreNamesIn(columns)|
  }

  /** The name of core `i`'s usage column. */
  function CoreColumn(i: nat): (c: string)
    ensures IsCoreName(c)
  {
    var c := "core_" + NatToString(i) + "_usage";
    assert c[..5] == "core_" && c[|c| - 6..] == "_usage" && c[5..|c| - 6] == NatToString(i);
    c
  }

  lemma CoreColumnInjective(i: nat, j: nat)
    requires CoreColumn(i) == CoreColumn(j)
    ensures i == j
  {
    var a, b := CoreColumn(i), CoreColumn(j);
    assert a[5..|a| - 6] == NatToString(i);
    assert b[5..|b| - 6] == NatToString(j);
    NatToStringInjective(i, j);
  }

  /** `self._core_columns`: the usage columns of cores 0 .. n-1. */
  function CoreColumns(n: nat): (cs: seq<string>)
    ensures |cs| == n && forall i :: 0 <= i < n ==> cs[i] == CoreColumn(i)
  {
    seq(n, i requires 0 <= i < n => CoreColumn(i))
  }

  /** The names f(0) .. f(n-1). */
  function ImageBelow(f: nat -> string, n: nat): set<string> {
    if n == 0 then {} else ImageBelow(f, n - 1) + {f(n - 1)}
  }

  /** The image holds f(i) for every i below n ... */
  lemma {:induction false} ImageBelowHas(f: nat -> string, n: nat, i: nat)
    requires i < n
    ensures f(i) in ImageBelow(f, n)
  {
    if i < n - 1 {
      ImageBelowHas(f, n - 1, i);
    }
  }

  /** ... and nothing else. */
  lemma {:induction false} ImageBelowOnly(f: nat -> string, n: nat, x: string)
    requires x in ImageBelow(f, n)
    ensures exists i :: 0 <= i < n && x == f(i)
  {
    if x != f(n - 1) {
      ImageBelowOnly(f, n - 1, x);
    }
  }

  /** An injective f has n distinct names below n. */
  lemma {:induction false} ImageBelowCard(f: nat -> string, n: nat)
    requires forall i: nat, j: nat :: f(i) == f(j) ==> i == j
    ensures |ImageBelow(f, n)| == n
  {
    if n > 0 {
      ImageBelowCard(f, n - 1);
      if f(n - 1) in ImageBelow(f, n - 1) {
        ImageBelowOnly(f, n - 1, f(n - 1));
      }
    }
  }

  /** The names of the usage columns of cores 0 .. n-1: n of them. */
  lemma CoreColumnsCard(n: nat)
    ensures |ImageBelow(CoreColumn, n)| == n
  {
    forall i: nat, j: nat | CoreColumn(i) == CoreColumn(j) ensures i == j {
      CoreColumnInjective(i, j);
    }
    ImageBelowCard(CoreColumn, n);
  }

  /** A header made of the usage columns of cores 0 .. n-1 followed by any columns
      that do not match the pattern counts n cores. */
  lemma CountCoresOfHeader(n: nat, others: seq<string>)
    requires forall j :: 0 <= j < |others| ==> CoreMatch(others[j]).None?
    ensures CountCores(CoreColumns(n) + others) == n
  {
    var cols := CoreColumns(n) + others;
    HeaderNamesWithin(n, others, cols);
    HeaderNamesCover(n, cols);
    assert CoreNamesIn(cols) == ImageBelow(CoreColumn, n);
    CoreColumnsCard(n);
  }

  lemma HeaderNamesWithin(n: nat, others: seq<string>, cols: seq<string>)
    requires forall j :: 0 <= j < |others| ==> CoreMatch(others[j]).None?
    requires cols == CoreColumns(n) + others
    ensures CoreNamesIn(cols) <= ImageBelow(CoreColumn, n)
  {
    forall x | x in CoreNamesIn(cols) ensures x in ImageBelow(CoreColumn, n) {
      var c :| c in cols && CoreMatch(c).Some? && CoreMatch(c).value == x;
      var k :| 0 <= k < |cols| && cols[k] == c;
      assert k < n;
      ImageBelowHas(CoreColumn, n, k);
    }
  }

  lemma HeaderNamesCover(n: nat, cols: seq<string>)
    requires n <= |cols| && cols[..n] == CoreColumns(n)
    ensures ImageBelow(CoreColumn, n) <= CoreNamesIn(cols)
  {
    forall x | x in ImageBelow(CoreColumn, n) ensures x in CoreNamesIn(cols) {
      ImageBelowOnly(CoreColumn, n, x);
      var i :| 0 <= i < n && x == CoreColumn(i);
      assert cols[i] == cols[..n][i] == CoreColumn(i);
      assert cols[i] in cols && CoreMatch(cols[i]) == Some(CoreColumn(i));
    }
  }

  /** The loaded table: its rows, the core count and the core usage columns. */
  datatype Stats = Stats(rows: seq<Sample>, numCores: nat, coreColumns: seq<string>)

  /** The constructor: counts the cores of the header; `(n - 1) / n` divides by zero
      when no column matches. */
  function Load(header: seq<string>, rows: seq<Sample>): (r: Result<Stats>)
    ensures r.Err? <==> CountCores(header) == 0
    ensures r.Err? ==> r.error == ZeroDivisionError
    ensures r.Ok? ==> r.value.rows == rows && r.value.numCores == CountCores(header) >= 1
                      && r.value.coreColumns == CoreColumns(r.value.numCores)
  {
    var n := CountCores(header);
    if n == 0 then Err(ZeroDivisionError) else Ok(Stats(rows, n, CoreColumns(n)))
  }

  /** `row[core_columns]`: the row's usage of each listed core, in order; the
      first column the row lacks raises KeyError. */
  function CoreUsages(s: Sample, cols: seq<string>): (r: Result<seq<real>>)
    ensures r.Err? <==> exists j :: 0 <= j < |cols| && cols[j] !in s.cores
    ensures r.Err? ==> exists j :: 0 <= j < |cols| && r.error == KeyError(cols[j]) && cols[j] !in s.cores
                                   && forall i :: 0 <= i < j ==> cols[i] in s.cores
    ensures r.Ok? ==> |r.value| == |cols| && forall j :: 0 <= j < |cols| ==> r.value[j] == s.cores[cols[j]]
  {
    if |cols| == 0 then Ok([])
    else if cols[0] !in s.cores then Err(KeyError(cols[0]))
    else
      match CoreUsages(s, cols[1..])
      case Err(e) =>
        assert exists j :: 0 <= j < |cols| && e == KeyError(cols[j]) && cols[j] !in s.cores
                           && forall i :: 0 <= i < j ==> cols[i] in s.cores by {
          var j :| 0 <= j < |cols| - 1 && e == KeyError(cols[1..][j]) && cols[1..][j] !in s.cores
                   && forall i :: 0 <= i < j ==> cols[1..][i] in s.cores;
          assert forall i :: 1 <= i < j + 1 ==> cols[i] == cols[1..][i - 1];
        }
        Err(e)
      case Ok(us) =>
        assert forall j :: 1 <= j < |cols| ==> cols[j] == cols[1..][j - 1];
        Ok([s.cores[cols[0]]] + us)
  }

  // ---------------------------------------------------------------------------
  // The dominant core

  /** The default margin by which a dominant core must exceed every other core. */
  const DefaultThreshold: real := 70.0

  /** Core i is busy and leads every other core by at least the threshold. */
  predicate Dominates(u: seq<real>, i: nat, threshold: real) {
    i < |u| && u[i] > 0.0 && forall j :: 0 <= j < |u| && j != i ==> u[i] - u[j] >= threshold
  }

  /** The scan of `_find_dominant_core` over the first k cores: the highest usage
      accepted so far and the index that holds it (-1 for none). */
  function Scan(u: seq<real>, threshold: real, k: nat): (real, int)
    requires k <= |u|
  {
    if k == 0 then (0.0, -1)
    else
      var (maxUsage, dom) := Scan(u, threshold, k - 1);
      if u[k - 1] > maxUsage && Dominates(u, k - 1, threshold) then (u[k - 1], k - 1) else (maxUsage, dom)
  }

  function DominantCore(u: seq<real>, threshold: real): int {
    Scan(u, threshold, |u|).1
  }

  /** `_find_dominant_core` on a row's core usages. */
  method FindDominantCore(u: seq<real>, threshold: real) returns (dominant: int)
    ensures dominant == DominantCore(u, threshold)
  {
    var maxUsage := 0.0;
    dominant := -1;
    var i := 0;
    while i < |u|
      invariant 0 <= i <= |u|
      invariant (maxUsage, dominant) == Scan(u, threshold, i)
      invariant maxUsage >= 0.0
    {
      if u[i] > maxUsage && forall j :: 0 <= j < |u| && j != i ==> u[i] - u[j] >= threshold {
        maxUsage := u[i];
        dominant := i;
      }
      i := i + 1;
    }
  }

  /** What the scan keeps after k cores: either nothing accepted, or the first of
      the cores so far with the greatest usage among those that dominate. */
  predicate Kept(u: seq<real>, threshold: real, k: nat, m: real, d: int)
    requires k <= |u|
  {
    (d == -1 <==> forall i :: 0 <= i < k ==> !Dominates(u, i, threshold))
    && (d == -1 ==> m == 0.0)
    && (d != -1 ==> 0 <= d < k && Dominates(u, d, threshold) && m == u[d]
                    && (forall i :: 0 <= i < k && Dominates(u, i, threshold) ==> u[i] <= u[d])
                    && (forall i :: 0 <= i < d && Dominates(u, i, threshold) ==> u[i] < u[d]))
  }

  lemma {:induction false} ScanSpec(u: seq<real>, threshold: real, k: nat)
    requires k <= |u|
    ensures Kept(u, threshold, k, Scan(u, threshold, k).0, Scan(u, threshold, k).1)
  {
    if k > 0 {
      ScanSpec(u, threshold, k - 1);
      ScanStep(u, threshold, k, Scan(u, threshold, k - 1).0, Scan(u, threshold, k - 1).1);
    }
  }

  /** One step of the scan keeps what it promises. */
  lemma ScanStep(u: seq<real>, threshold: real, k: nat, m: real, d: int)
    requires 0 < k <= |u| && Kept(u, threshold, k - 1, m, d)
    ensures if u[k - 1] > m && Dominates(u, k - 1, threshold)
            then Kept(u, threshold, k, u[k - 1], k - 1)
            else Kept(u, threshold, k, m, d)
  {
    if u[k - 1] > m && Dominates(u, k - 1, threshold) {
      forall i | 0 <= i < k - 1 && Dominates(u, i, threshold) ensures u[i] < u[k - 1] {
        assert d != -1 && u[i] <= u[d];
      }
    } else if Dominates(u, k - 1, threshold) {
      assert d != -1;
    }
  }

  /** The dominant core is -1 exactly when no core dominates; otherwise it
      dominates, no dominating core is busier, and none before it is as busy. */
  lemma DominantCoreSpec(u: seq<real>, threshold: real)
    ensures var d := DominantCore(u, threshold);
      (d == -1 <==> forall i :: 0 <= i < |u| ==> !Dominates(u, i, threshold))
      && (d != -1 ==> 0 <= d < |u| && Dominates(u, d, threshold)
                      && (forall i :: 0 <= i < |u| && Dominates(u, i, threshold) ==> u[i] <= u[d])
                      && (forall i :: 0 <= i < d && Dominates(u, i, threshold) ==> u[i] < u[d]))
  {
    ScanSpec(u, threshold, |u|);
    assert Kept(u, threshold, |u|, Scan(u, threshold, |u|).0, DominantCore(u, threshold));
  }

  /** With a positive threshold at most one core dominates, so the dominant core is
      that one. */
  lemma DominantCoreUnique(u: seq<real>, threshold: real, i: nat)
    requires threshold > 0.0 && Dominates(u, i, threshold)
    ensures DominantCore(u, threshold) == i
  {
    DominantCoreSpec(u, threshold);
  }

  // ---------------------------------------------------------------------------
  // Load disparity

  /** Σ (i + 1) * v[i]. */
  function WeightedSum(v: seq<real>): real {
    if |v| == 0 then 0.0 else WeightedSum(v[..|v| - 1]) + (|v| as real) * v[|v| - 1]
  }

  /** Each core's share of the row's total usage. */
  function Shares(u: seq<real>, total: real): (v: seq<real>)
    requires total > 0.0
    ensures |v| == |u| && forall i :: 0 <= i < |u| ==> v[i] == u[i] / total
  {
    seq(|u|, i requires 0 <= i < |u| => u[i] / total)
  }

  function ByValue(x: real): Key {
    [Num(x)]
  }

  /** `(2 * Σ (i + 1) * v[i] - n - 1) / n` on ascending shares. */
  function Gini(sorted: seq<real>): real
    requires |sorted| > 0
  {
    var n := |sorted| as real;
    (2.0 * WeightedSum(sorted) - n - 1.0) / n
  }

  /** `_get_cores_load_disparity` on a row's usage of its n cores: 0 when the total
      usage is not positive, otherwise the Gini coefficient of the ascending shares
      scaled by its largest possible value `(n - 1) / n` to a percentage. With a
      single core that largest value is 0 and the score is NaN (None). */
  function Disparity(u: seq<real>): (d: Option<real>)
    requires |u| >= 1
    ensures Sum(u) <= 0.0 ==> d == Some(0.0)
    ensures d.None? <==> Sum(u) > 0.0 && |u| == 1
  {
    var total := Sum(u);
    if total > 0.0 then
      var g := Gini(SortBy(Shares(u, total), ByValue));
      if |u| == 1 then None else Some(Percentage(g, |u|))
    else Some(0.0)
  }

  /** A Gini value of n shares as a percentage of its largest value `(n - 1) / n`. */
  function Percentage(g: real, n: nat): real
    requires n >= 2
  {
    g * 100.0 / ((n as real - 1.0) / n as real)
  }

  function Constant(n: nat, c: real): (s: seq<real>)
    ensures |s| == n && forall i :: 0 <= i < n ==> s[i] == c
  {
    seq(n, i requires 0 <= i < n => c)
  }

  lemma {:induction false} SumConstant(n: nat, c: real)
    ensures Sum(Constant(n, c)) == n as real * c
  {
    if n > 0 {
      assert Constant(n, c)[..n - 1] == Constant(n - 1, c);
      SumConstant(n - 1, c);
    }
  }

  lemma {:induction false} WeightedSumConstant(n: nat, c: real)
    ensures 2.0 * WeightedSum(Constant(n, c)) == (n * (n + 1)) as real * c
  {
    if n > 0 {
      assert Constant(n, c)[..n - 1] == Constant(n - 1, c);
      WeightedSumConstant(n - 1, c);
    }
  }

  /** A permutation of a constant sequence is that sequence. */
  lemma PermutationOfConstant(r: seq<real>, n: nat, c: real)
    requires multiset(r) == multiset(Constant(n, c))
    ensures r == Constant(n, c)
  {
    assert |r| == n by { assert |multiset(r)| == |multiset(Constant(n, c))|; }
    forall i | 0 <= i < |r| ensures r[i] == c {
      assert r[i] in multiset(Constant(n, c));
    }
  }

  /** Cores carrying equal positive usage score no disparity. */
  lemma EqualLoadScoresZero(n: nat, c: real)
    requires n >= 2 && c > 0.0
    ensures Disparity(Constant(n, c)) == Some(0.0)
  {
    var u := Constant(n, c);
    var nr := n as real;
    SumConstant(n, c);
    var share := 1.0 / nr;
    assert c / Sum(u) == share by { assert Sum(u) == nr * c; }
    assert Shares(u, Sum(u)) == Constant(n, share);
    PermutationOfConstant(SortBy(Shares(u, Sum(u)), ByValue), n, share);
    GiniOfEqualShares(n);
    assert Disparity(u) == Some(Percentage(0.0, n));
  }

  lemma GiniOfEqualShares(n: nat)
    requires n >= 1
    ensures Gini(Constant(n, 1.0 / n as real)) == 0.0
  {
    var nr := n as real;
    WeightedSumConstant(n, 1.0 / nr);
    assert (n * (n + 1)) as real * (1.0 / nr) == nr + 1.0 by {
      assert (n * (n + 1)) as real == nr * (nr + 1.0);
    }
  }

  /** The usage of one busy core among n idle ones: c at position k, 0 elsewhere. */
  function OneHot(n: nat, k: nat, c: real): (s: seq<real>)
    requires k < n
    ensures |s| == n && s[k] == c && forall i :: 0 <= i < n && i != k ==> s[i] == 0.0
  {
    seq(n, i requires 0 <= i < n => if i == k then c else 0.0)
  }

  lemma {:induction false} SumOneHot(n: nat, k: nat, c: real)
    requires k < n
    ensures Sum(OneHot(n, k, c)) == c
  {
    if n - 1 == k {
      assert OneHot(n, k, c)[..n - 1] == Constant(n - 1, 0.0);
      SumConstant(n - 1, 0.0);
    } else {
      assert OneHot(n, k, c)[..n - 1] == OneHot(n - 1, k, c);
      SumOneHot(n - 1, k, c);
    }
  }

  /** A sorted permutation of the one-hot shares puts the single 1 last. */
  lemma SortedOneHot(r: seq<real>, n: nat, k: nat)
    requires k < n && multiset(r) == multiset(OneHot(n, k, 1.0)) && SortedBy(r, ByValue)
    ensures r == OneHot(n, n - 1, 1.0)
  {
    var s := OneHot(n, k, 1.0);
    assert |r| == n by { assert |multiset(r)| == |multiset(s)|; }
    forall i | 0 <= i < n ensures r[i] == 0.0 || r[i] == 1.0 {
      assert r[i] in multiset(s);
    }
    assert 1.0 in multiset(r) by { assert s[k] == 1.0; assert s[k] in multiset(s); }
    var p :| 0 <= p < n && r[p] == 1.0;
    assert !KeyLt(ByValue(r[n - 1]), ByValue(r[p])) by { if p < n - 1 { } }
    OneHotCount(n, k);
    forall i | 0 <= i < n - 1 ensures r[i] == 0.0 {
      TwoOnes(r, i, n - 1);
    }
    assert forall i :: 0 <= i < n ==> r[i] == OneHot(n, n - 1, 1.0)[i];
  }

  lemma ZerosHaveNoOne(m: nat)
    ensures multiset(Constant(m, 0.0))[1.0] == 0
  {
    assert forall x :: x in multiset(Constant(m, 0.0)) ==> x == 0.0;
  }

  /** The one-hot shares hold the value 1 once. */
  lemma OneHotCount(n: nat, k: nat)
    requires k < n
    ensures multiset(OneHot(n, k, 1.0))[1.0] == 1
  {
    assert OneHot(n, k, 1.0) == Constant(k, 0.0) + [1.0] + Constant(n - 1 - k, 0.0);
    ZerosHaveNoOne(k);
    ZerosHaveNoOne(n - 1 - k);
  }

  lemma TwoOnes(r: seq<real>, i: nat, j: nat)
    requires i < j < |r|
    ensures r[i] == 1.0 && r[j] == 1.0 ==> multiset(r)[1.0] >= 2
  {
    var front := r[..j];
    assert r == front + [r[j]] + r[j + 1..];
    assert multiset(r) == multiset(front) + multiset{r[j]} + multiset(r[j + 1..]);
    assert front[i] == r[i] && front[i] in multiset(front);
  }

  /** All the load on one of n >= 2 cores scores the full 100. */
  lemma OneCoreLoadScoresHundred(n: nat, k: nat, c: real)
    requires 2 <= n && k < n && c > 0.0
    ensures Disparity(OneHot(n, k, c)) == Some(100.0)
  {
    var u := OneHot(n, k, c);
    assert Sum(u) == c by { SumOneHot(n, k, c); }
    var g := Gini(SortBy(Shares(u, c), ByValue));
    assert |u| == n;
    assert Disparity(u) == Some(Percentage(g, n));
    OneHotGini(n, k, c);
    FullScore(n);
  }

  /** The Gini value of one-hot usage is its largest possible value (n - 1) / n. */
  lemma OneHotGini(n: nat, k: nat, c: real)
    requires 2 <= n && k < n && c > 0.0
    ensures Gini(SortBy(Shares(OneHot(n, k, c), c), ByValue)) == (n as real - 1.0) / n as real
  {
    OneHotShares(n, k, c);
    SortOneHot(n, k);
    GiniLastOne(n);
  }

  lemma MaxGiniPositive(n: nat)
    requires n >= 2
    ensures (n as real - 1.0) / n as real > 0.0
  {
  }

  /** Sorting one-hot shares moves the single 1 to the end. */
  lemma SortOneHot(n: nat, k: nat)
    requires k < n
    ensures SortBy(OneHot(n, k, 1.0), ByValue) == OneHot(n, n - 1, 1.0)
  {
    SortByIsSorted(OneHot(n, k, 1.0), ByValue);
    SortedOneHot(SortBy(OneHot(n, k, 1.0), ByValue), n, k);
  }

  lemma OneHotShares(n: nat, k: nat, c: real)
    requires k < n && c > 0.0
    ensures Shares(OneHot(n, k, c), c) == OneHot(n, k, 1.0)
  {
    var shares := Shares(OneHot(n, k, c), c);
    forall i | 0 <= i < n ensures shares[i] == OneHot(n, k, 1.0)[i] {
      if i == k { assert c / c == 1.0; }
    }
  }

  /** All the load on the last core gives the Gini value (n - 1) / n. */
  lemma GiniLastOne(n: nat)
    requires n >= 1
    ensures Gini(OneHot(n, n - 1, 1.0)) == (n as real - 1.0) / n as real
  {
    WeightedSumLastOne(n);
  }

  /** The arithmetic of the full score: a score equal to its own bound scales to 100. */
  lemma FullScore(n: nat)
    requires n >= 2
    ensures Percentage((n as real - 1.0) / n as real, n) == 100.0
  {
    MaxGiniPositive(n);
  }

  lemma WeightedSumLastOne(n: nat)
    requires n >= 1
    ensures WeightedSum(OneHot(n, n - 1, 1.0)) == n as real
  {
    assert OneHot(n, n - 1, 1.0)[..n - 1] == Constant(n - 1, 0.0);
    WeightedSumConstant(n - 1, 0.0);
  }

  lemma {:induction false} SumConcat(a: seq<real>, b: seq<real>)
    ensures Sum(a + b) == Sum(a) + Sum(b)
    decreases |b|
  {
    if |b| > 0 {
      assert (a + b)[..|a + b| - 1] == a + b[..|b| - 1];
      SumConcat(a, b[..|b| - 1]);
    } else {
      assert a + b == a;
    }
  }

  /** Inserting a value into a sorted list adds it to the sum. */
  lemma {:induction false} SumInsert(x: real, t: seq<real>)
    ensures Sum(Insert(x, t, ByValue)) == Sum(t) + x
    decreases |t|
  {
    if |t| > 0 {
      assert t == [t[0]] + t[1..];
      SumConcat([t[0]], t[1..]);
      assert Sum([t[0]]) == t[0] by { assert [t[0]][..0] == []; }
      if KeyLt(ByValue(x), ByValue(t[0])) {
        SumConcat([x], t);
        assert Sum([x]) == x by { assert [x][..0] == []; }
      } else {
        SumInsert(x, t[1..]);
        SumConcat([t[0]], Insert(x, t[1..], ByValue));
      }
    } else {
      assert Sum([x]) == x by { assert [x][..0] == []; }
    }
  }

  /** Sorting the shares keeps their sum. */
  lemma {:induction false} SumSortBy(v: seq<real>)
    ensures Sum(SortBy(v, ByValue)) == Sum(v)
    decreases |v|
  {
    if |v| > 0 {
      SumSortBy(v[..|v| - 1]);
      SumInsert(v[|v| - 1], SortBy(v[..|v| - 1], ByValue));
    }
  }

  /** The shares of a total add up to the usage over that total. */
  lemma {:induction false} SumShares(u: seq<real>, total: real)
    requires total > 0.0
    ensures Sum(Shares(u, total)) == Sum(u) / total
    decreases |u|
  {
    if |u| > 0 {
      var k := |u| - 1;
      assert Shares(u, total)[..k] == Shares(u[..k], total);
      SumShares(u[..k], total);
      assert Sum(u[..k]) / total + u[k] / total == (Sum(u[..k]) + u[k]) / total;
    }
  }

  /** For non-negative values, Σ (i + 1) * v[i] is at most n times their sum. */
  lemma {:induction false} WeightedSumAtMost(v: seq<real>)
    requires forall i :: 0 <= i < |v| ==> v[i] >= 0.0
    ensures 0.0 <= Sum(v) && WeightedSum(v) <= |v| as real * Sum(v)
    decreases |v|
  {
    if |v| > 0 {
      var k := |v| - 1;
      WeightedSumAtMost(v[..k]);
      var s, n := Sum(v[..k]), |v| as real;
      assert k as real * s <= n * s by { assert n * s == k as real * s + s; }
      assert n * (s + v[k]) == n * s + n * v[k];
    }
  }

  /** For ascending values, Σ (i + 1) * v[i] is at least (n + 1) / 2 times their
      sum (Chebyshev's sum inequality). */
  lemma {:induction false} WeightedSumAtLeast(v: seq<real>)
    requires forall i, j :: 0 <= i < j < |v| ==> v[i] <= v[j]
    ensures 2.0 * WeightedSum(v) >= (|v| + 1) as real * Sum(v)
    decreases |v|
  {
    if |v| > 0 {
      var k := |v| - 1;
      var init, x := v[..k], v[k];
      WeightedSumAtLeast(init);
      assert forall i :: 0 <= i < |init| ==> v[0] <= init[i] <= x by {
        forall i | 0 <= i < |init| ensures v[0] <= init[i] <= x {
          assert init[i] == v[i];
        }
      }
      SumBounds(init, v[0], x);
      ChebyshevStep(WeightedSum(init), Sum(init), x, k as real);
    }
  }

  /** One step of the inequality: appending a value no smaller than the k before it. */
  lemma ChebyshevStep(w: real, s: real, x: real, k: real)
    requires k >= 0.0 && s <= x * k && 2.0 * w >= (k + 1.0) * s
    ensures 2.0 * (w + (k + 1.0) * x) >= (k + 2.0) * (s + x)
  {
    assert (k + 2.0) * (s + x) == (k + 1.0) * s + s + (k + 2.0) * x;
    assert 2.0 * (k + 1.0) * x == x * k + (k + 2.0) * x;
  }

  /** The Gini arithmetic: a weighted sum between (n + 1) / 2 and n puts the
      coefficient between 0 and its largest value (n - 1) / n. */
  lemma GiniWithin(w: real, n: real)
    requires n >= 2.0 && n + 1.0 <= 2.0 * w <= 2.0 * n
    ensures 0.0 <= (2.0 * w - n - 1.0) / n <= (n - 1.0) / n
  {
  }

  /** A coefficient between 0 and its bound scales to a percentage. */
  lemma ScoreWithin(g: real, n: nat)
    requires n >= 2 && 0.0 <= g <= (n as real - 1.0) / n as real
    ensures 0.0 <= Percentage(g, n) <= 100.0
  {
    var bound := (n as real - 1.0) / n as real;
    MaxGiniPositive(n);
    assert g * 100.0 <= bound * 100.0;
  }

  /** Two values compare as keys as they compare as numbers. */
  lemma ByValueLt(a: real, b: real)
    ensures KeyLt(ByValue(b), ByValue(a)) <==> b < a
  {
    assert ByValue(b)[1..] == [] && ByValue(a)[1..] == [];
  }

  /** The sorted values are ascending. */
  lemma SortedAscending(v: seq<real>)
    ensures var s := SortBy(v, ByValue); forall i, j :: 0 <= i < j < |s| ==> s[i] <= s[j]
  {
    var s := SortBy(v, ByValue);
    SortByIsSorted(v, ByValue);
    forall i, j | 0 <= i < j < |s| ensures s[i] <= s[j] {
      ByValueLt(s[i], s[j]);
    }
  }

  /** Sorting non-negative values gives non-negative values. */
  lemma SortedNonNegative(v: seq<real>)
    requires forall i :: 0 <= i < |v| ==> v[i] >= 0.0
    ensures var s := SortBy(v, ByValue); forall i :: 0 <= i < |s| ==> s[i] >= 0.0
  {
    var s := SortBy(v, ByValue);
    forall i | 0 <= i < |s| ensures s[i] >= 0.0 {
      assert s[i] in multiset(s);
      assert s[i] in v;
    }
  }

  /** The ascending shares of non-negative usage with a positive total: as many as
      the cores, each at least 0, adding up to 1. */
  lemma SortedShares(u: seq<real>, total: real)
    requires total > 0.0 && total == Sum(u) && forall i :: 0 <= i < |u| ==> u[i] >= 0.0
    ensures |SortBy(Shares(u, total), ByValue)| == |u| && ShareProfile(SortBy(Shares(u, total), ByValue))
  {
    var shares := Shares(u, total);
    SumShares(u, total);
    SumSortBy(shares);
    SortByLength(shares, ByValue);
    forall i | 0 <= i < |shares| ensures shares[i] >= 0.0 {
      QuotientNonNegative(u[i], total);
    }
    SortedNonNegative(shares);
    SortedAscending(shares);
    SelfQuotient(total);
  }

  lemma SelfQuotient(x: real)
    requires x > 0.0
    ensures x / x == 1.0
  {
  }

  /** Shares in ascending order, each at least 0, adding up to 1. */
  predicate ShareProfile(s: seq<real>) {
    Sum(s) == 1.0
    && (forall i :: 0 <= i < |s| ==> s[i] >= 0.0)
    && (forall i, j :: 0 <= i < j < |s| ==> s[i] <= s[j])
  }

  lemma QuotientNonNegative(a: real, b: real)
    requires a >= 0.0 && b > 0.0
    ensures a / b >= 0.0
  {
  }

  /** Ascending non-negative shares adding up to 1 have a Gini value between 0 and
      its largest value (n - 1) / n. */
  lemma GiniBounds(s: seq<real>, n: nat)
    requires |s| == n >= 2 && ShareProfile(s)
    ensures 0.0 <= Gini(s) <= (n as real - 1.0) / n as real
  {
    WeightedSumAtMost(s);
    WeightedSumAtLeast(s);
    GiniWithin(WeightedSum(s), n as real);
  }

  /** With a positive total and two cores or more, the score is the scaled Gini
      value of the ascending shares. */
  lemma DisparityOfPositive(u: seq<real>)
    requires Sum(u) > 0.0 && |u| >= 2
    ensures Disparity(u) == Some(Percentage(Gini(SortBy(Shares(u, Sum(u)), ByValue)), |u|))
  {
  }

  /** Ascending shares adding up to 1 score a percentage. */
  lemma ShareScoreWithin(s: seq<real>, n: nat)
    requires |s| == n >= 2 && ShareProfile(s)
    ensures 0.0 <= Percentage(Gini(s), n) <= 100.0
  {
    GiniBounds(s, n);
    ScoreWithin(Gini(s), n);
  }

  /** The score is a percentage: non-negative usage scores between 0 and 100, and
      with two cores or more it is always a number. */
  lemma DisparityRange(u: seq<real>)
    requires |u| >= 1 && forall i :: 0 <= i < |u| ==> u[i] >= 0.0
    ensures |u| >= 2 ==> Disparity(u).Some?
    ensures Disparity(u).Some? ==> 0.0 <= Disparity(u).value <= 100.0
  {
    if Sum(u) > 0.0 && |u| >= 2 {
      SortedShares(u, Sum(u));
      ShareScoreWithin(SortBy(Shares(u, Sum(u)), ByValue), |u|);
      DisparityOfPositive(u);
    }
  }

  // ---------------------------------------------------------------------------
  // Dominant-core changes and time

  /** One row of the window as the tracker sees it. */
  datatype Point = Point(dominant: int, uptime: real)

  /** The tracker's variables: the current dominant core (None before the first
      row), the start of the open streak, the accumulated time and the change count. */
  datatype Tracker = Tracker(current: Option<int>, start: Option<real>, timer: real, changes: nat)

  const Initial: Tracker := Tracker(None, None, 0.0, 0)

  /** Python's truth value of the streak start: None and 0.0 are false. */
  predicate Truthy(start: Option<real>) {
    start.Some? && start.value != 0.0
  }

  /** A dominant current core always has an open streak. */
  predicate Consistent(t: Tracker) {
    t.current.Some? && t.current.value >= 0 ==> t.start.Some?
  }

  /** One iteration of the loop of `track_dominant_core_changes_between_labels`;
      `last` says whether the row is the window's last. */
  function Step(t: Tracker, p: Point, last: bool): (t': Tracker)
    requires Consistent(t)
    ensures Consistent(t')
  {
    if p.dominant >= 0 then
      if t.current != Some(p.dominant) then
        Tracker(Some(p.dominant), if t.start.None? then Some(p.uptime) else t.start, t.timer, t.changes + 1)
      else if last then
        t.(timer := t.timer + (p.uptime - t.start.value))
      else t
    else if Truthy(t.start) then
      Tracker(Some(p.dominant), None, t.timer + (p.uptime - t.start.value), t.changes)
    else
      t.(current := Some(p.dominant))
  }

  /** The tracker after the first k rows of the window `ps`. */
  function Track(ps: seq<Point>, k: nat): (t: Tracker)
    requires k <= |ps|
    ensures Consistent(t)
  {
    if k == 0 then Initial else Step(Track(ps, k - 1), ps[k - 1], k == |ps|)
  }

  /** The loop over the window: returns the change count and the dominant-core time. */
  method TrackChanges(ps: seq<Point>) returns (changes: nat, timer: real)
    ensures changes == Track(ps, |ps|).changes && timer == Track(ps, |ps|).timer
  {
    var current: Option<int> := None;
    var start: Option<real> := None;
    changes, timer := 0, 0.0;
    var idx := 0;
    while idx < |ps|
      invariant 0 <= idx <= |ps|
      invariant Tracker(current, start, timer, changes) == Track(ps, idx)
    {
      var dominant := ps[idx].dominant;
      if dominant >= 0 {
        if current != Some(dominant) {
          current := Some(dominant);
          changes := changes + 1;
          start := if start.None? then Some(ps[idx].uptime) else start;
        } else if idx == |ps| - 1 {
          timer := timer + (ps[idx].uptime - start.value);
        }
      } else {
        current := Some(dominant);
        if start.Some? && start.value != 0.0 {
          timer := timer + (ps[idx].uptime - start.value);
          start := None;
        }
      }
      idx := idx + 1;
    }
  }

  /** Row i starts a change: it has a dominant core and the row before has a different one. */
  predicate ChangeAt(ps: seq<Point>, i: nat)
    requires i < |ps|
  {
    ps[i].dominant >= 0 && (i == 0 || ps[i].dominant != ps[i - 1].dominant)
  }

  function CountChanges(ps: seq<Point>, k: nat): nat
    requires k <= |ps|
  {
    if k == 0 then 0 else CountChanges(ps, k - 1) + (if ChangeAt(ps, k - 1) then 1 else 0)
  }

  /** After any row the current core is that row's value, so the count is the
      number of rows with a dominant core that differs from the previous row's
      (A, -1, A counts two changes). */
  lemma {:induction false} TrackChangesCount(ps: seq<Point>, k: nat)
    requires k <= |ps|
    ensures Track(ps, k).changes == CountChanges(ps, k)
    ensures k > 0 ==> Track(ps, k).current == Some(ps[k - 1].dominant)
    ensures k == 0 ==> Track(ps, k).current.None?
  {
    if k > 0 {
      TrackChangesCount(ps, k - 1);
    }
  }

  predicate NonDecreasing(ps: seq<Point>) {
    forall i, j :: 0 <= i < j < |ps| ==> ps[i].uptime <= ps[j].uptime
  }

  /** Before the last row: every streak start is an uptime already seen, and the
      time so far fits between the first uptime and the open start (or the latest
      uptime when no streak is open). */
  lemma {:induction false} TrackBeforeLast(ps: seq<Point>, k: nat)
    requires 0 < k < |ps| && NonDecreasing(ps)
    ensures var t := Track(ps, k);
      0.0 <= t.timer
      && (t.start.Some? ==> ps[0].uptime <= t.start.value <= ps[k - 1].uptime
                            && t.timer <= t.start.value - ps[0].uptime)
      && (t.start.None? ==> t.timer <= ps[k - 1].uptime - ps[0].uptime)
  {
    if k > 1 {
      TrackBeforeLast(ps, k - 1);
    }
  }

  /** On a window whose uptimes never decrease, the dominant-core time is between 0
      and the window's span. */
  lemma TimerWithinSpan(ps: seq<Point>)
    requires |ps| > 0 && NonDecreasing(ps)
    ensures 0.0 <= Track(ps, |ps|).timer <= ps[|ps| - 1].uptime - ps[0].uptime
  {
    if |ps| > 1 {
      TrackBeforeLast(ps, |ps| - 1);
    }
  }

  /** A streak opened at uptime 0.0 is never closed by a non-dominant row: its start
      is false to Python, so neither the timer nor the start moves. */
  lemma ZeroStartStaysOpen(t: Tracker, p: Point, last: bool)
    requires Consistent(t) && t.start == Some(0.0) && p.dominant < 0
    ensures Step(t, p, last) == t.(current := Some(p.dominant))
  {
  }

  /** A direct switch from one dominant core to another keeps the open streak's start. */
  lemma SwitchKeepsStart(t: Tracker, p: Point, last: bool)
    requires Consistent(t) && t.current.Some? && t.current.value >= 0
    requires p.dominant >= 0 && p.dominant != t.current.value
    ensures Step(t, p, last).start == t.start && Step(t, p, last).timer == t.timer
  {
  }

  // ---------------------------------------------------------------------------
  // The whole query

  /** What calling `reset_index` on the None window raises. */
  const NoWindowReset: Error := AttributeError("'NoneType' object has no attribute 'reset_index'")

  /** The disparity average over the rows whose score is a positive number. The
      mean of an empty selection is pandas' `np.nan` object, which the identity
      test against `np.NaN` turns into 0. */
  function DisparityAverage(scores: seq<Option<real>>): (avg: real)
  {
    var positive := Positive(scores);
    if |positive| == 0 then 0.0 else Mean(positive).value
  }

  function Positive(scores: seq<Option<real>>): (p: seq<real>)
    ensures forall x :: x in p ==> x > 0.0
    ensures |p| <= |scores|
  {
    if |scores| == 0 then []
    else
      var rest := Positive(scores[..|scores| - 1]);
      var last := scores[|scores| - 1];
      if last.Some? && last.value > 0.0 then rest + [last.value] else rest
  }

  /** When every score lies in [0, 100] so does their positive average. */
  lemma DisparityAverageBounds(scores: seq<Option<real>>)
    requires forall i :: 0 <= i < |scores| && scores[i].Some? ==> 0.0 <= scores[i].value <= 100.0
    ensures 0.0 <= DisparityAverage(scores) <= 100.0
  {
    var p := Positive(scores);
    PositiveWithin(scores);
    if |p| > 0 {
      MeanWithin(p, 0.0, 100.0);
    }
  }

  lemma {:induction false} PositiveWithin(scores: seq<Option<real>>)
    requires forall i :: 0 <= i < |scores| && scores[i].Some? ==> 0.0 <= scores[i].value <= 100.0
    ensures forall i :: 0 <= i < |Positive(scores)| ==> 0.0 <= Positive(scores)[i] <= 100.0
  {
    if |scores| > 0 {
      PositiveWithin(scores[..|scores| - 1]);
    }
  }

  /** The per-row inputs of the tracker: each row's core usages, dominant core and
      disparity, or the KeyError of the first row that lacks a core column. */
  function RowFacts(fs: Stats, w: seq<Sample>, threshold: real): (r: Result<(seq<Point>, seq<Option<real>>)>)
    requires fs.numCores >= 1 && |fs.coreColumns| == fs.numCores
    ensures r.Ok? ==> |r.value.0| == |w| && |r.value.1| == |w|
  {
    if |w| == 0 then Ok(([], []))
    else
      var rest :- RowFacts(fs, w[..|w| - 1], threshold);
      var u :- CoreUsages(w[|w| - 1], fs.coreColumns);
      Ok((rest.0 + [Point(DominantCore(u, threshold), w[|w| - 1].uptime)], rest.1 + [Disparity(u)]))
  }

  /** `track_dominant_core_changes_between_labels`: the number of dominant-core
      changes, the time with a dominant core and the average positive disparity
      over the label window. */
  function TrackBetweenLabels(fs: Stats, start: string, finish: string, threshold: real): (r: Result<(nat, real, real)>)
    requires fs.numCores >= 1 && |fs.coreColumns| == fs.numCores
    ensures Window(fs.rows, start, finish).None? ==> r == Err(NoWindowReset)
    ensures r.Ok? ==> Window(fs.rows, start, finish).Some?
                      && RowFacts(fs, Window(fs.rows, start, finish).value, threshold).Ok?
    ensures r.Ok? ==> var w := Window(fs.rows, start, finish).value;
      var facts := RowFacts(fs, w, threshold).value;
      r.value == (Track(facts.0, |w|).changes, Track(facts.0, |w|).timer, DisparityAverage(facts.1))
  {
    match Window(fs.rows, start, finish)
    case None => Err(NoWindowReset)
    case Some(w) =>
      var facts :- RowFacts(fs, w, threshold);
      var t := Track(facts.0, |w|);
      Ok((t.changes, t.timer, DisparityAverage(facts.1)))
  }

  /** Every core usage of every row is non-negative, as CPU percentages are. */
  predicate NonNegativeCores(rows: seq<Sample>) {
    forall i, c :: 0 <= i < |rows| && c in rows[i].cores ==> rows[i].cores[c] >= 0.0
  }

  /** With non-negative usage, every row's score is a percentage. */
  lemma {:induction false} RowFactsScoresWithin(fs: Stats, w: seq<Sample>, threshold: real)
    requires fs.numCores >= 1 && |fs.coreColumns| == fs.numCores
    requires NonNegativeCores(w) && RowFacts(fs, w, threshold).Ok?
    ensures var scores := RowFacts(fs, w, threshold).value.1;
      forall i :: 0 <= i < |scores| && scores[i].Some? ==> 0.0 <= scores[i].value <= 100.0
    decreases |w|
  {
    if |w| > 0 {
      var k := |w| - 1;
      NonNegativePrefix(w, k);
      RowFactsScoresWithin(fs, w[..k], threshold);
      var rest := RowFacts(fs, w[..k], threshold).value.1;
      var u := CoreUsages(w[k], fs.coreColumns).value;
      assert RowFacts(fs, w, threshold).value.1 == rest + [Disparity(u)];
      RowUsageNonNegative(w, k, fs.coreColumns);
      DisparityRange(u);
    }
  }

  lemma NonNegativePrefix(w: seq<Sample>, k: nat)
    requires k <= |w| && NonNegativeCores(w)
    ensures NonNegativeCores(w[..k])
  {
    forall i, c | 0 <= i < k && c in w[..k][i].cores ensures w[..k][i].cores[c] >= 0.0 {
      assert w[..k][i] == w[i];
    }
  }

  /** The usages read from a row of non-negative usage are non-negative. */
  lemma RowUsageNonNegative(w: seq<Sample>, k: nat, cols: seq<string>)
    requires k < |w| && NonNegativeCores(w) && CoreUsages(w[k], cols).Ok?
    ensures var u := CoreUsages(w[k], cols).value; forall i :: 0 <= i < |u| ==> u[i] >= 0.0
  {
  }

  /** With non-negative core usage, the average disparity the query reports is a
      percentage. */
  lemma TrackBetweenLabelsAverageWithin(fs: Stats, start: string, finish: string, threshold: real)
    requires fs.numCores >= 1 && |fs.coreColumns| == fs.numCores && NonNegativeCores(fs.rows)
    ensures TrackBetweenLabels(fs, start, finish, threshold).Ok? ==>
      0.0 <= TrackBetweenLabels(fs, start, finish, threshold).value.2 <= 100.0
  {
    if TrackBetweenLabels(fs, start, finish, threshold).Ok? {
      var w := Window(fs.rows, start, finish).value;
      WindowNonNegative(fs.rows, start, finish);
      RowFactsScoresWithin(fs, w, threshold);
      DisparityAverageBounds(RowFacts(fs, w, threshold).value.1);
    }
  }

  /** The label window keeps the rows' non-negative usage. */
  lemma WindowNonNegative(rows: seq<Sample>, start: string, finish: string)
    requires NonNegativeCores(rows) && Window(rows, start, finish).Some?
    ensures NonNegativeCores(Window(rows, start, finish).value)
  {
    var w := Window(rows, start, finish).value;
    forall i, c | 0 <= i < |w| && c in w[i].cores ensures w[i].cores[c] >= 0.0 {
      assert w[i] == rows[FirstLabelled(rows, start).value + i];
    }
  }

  /** Once a prefix of the window fails, the whole window fails with that error. */
  lemma {:induction false} RowFactsPrefixError(fs: Stats, w: seq<Sample>, threshold: real, j: nat)
    requires fs.numCores >= 1 && |fs.coreColumns| == fs.numCores
    requires j <= |w| && RowFacts(fs, w[..j], threshold).Err?
    ensures RowFacts(fs, w, threshold) == RowFacts(fs, w[..j], threshold)
    decreases |w| - j
  {
    if j < |w| {
      var init := w[..|w| - 1];
      assert init[..j] == w[..j];
      RowFactsPrefixError(fs, init, threshold, j);
    } else {
      assert w[..j] == w;
    }
  }

  /** The method form of the query: a loop over the window rows that computes each
      row's dominant core and disparity, followed by the tracking loop. */
  method TrackDominantCoreChanges(fs: Stats, start: string, finish: string, threshold: real)
    returns (r: Result<(nat, real, real)>)
    requires fs.numCores >= 1 && |fs.coreColumns| == fs.numCores
    ensures r == TrackBetweenLabels(fs, start, finish, threshold)
  {
    var window := Window(fs.rows, start, finish);
    if window.None? {
      return Err(NoWindowReset);
    }
    var w := window.value;
    var points: seq<Point> := [];
    var scores: seq<Option<real>> := [];
    var i := 0;
    while i < |w|
      invariant 0 <= i <= |w|
      invariant RowFacts(fs, w[..i], threshold) == Ok((points, scores))
    {
      RowFactsStep(fs, w, threshold, i);
      var u := CoreUsages(w[i], fs.coreColumns);
      if u.Err? {
        RowFactsPrefixError(fs, w, threshold, i + 1);
        return Err(u.error);
      }
      var dominant := FindDominantCore(u.value, threshold);
      points := points + [Point(dominant, w[i].uptime)];
      scores := scores + [Disparity(u.value)];
      i := i + 1;
    }
    assert w[..i] == w;
    var changes, timer := TrackChanges(points);
    return Ok((changes, timer, DisparityAverage(scores)));
  }

  /** One more window row: its usages fail, or its point and score are appended. */
  lemma RowFactsStep(fs: Stats, w: seq<Sample>, threshold: real, i: nat)
    requires fs.numCores >= 1 && |fs.coreColumns| == fs.numCores && i < |w|
    ensures var prev := RowFacts(fs, w[..i], threshold);
      var u := CoreUsages(w[i], fs.coreColumns);
      RowFacts(fs, w[..i + 1], threshold)
      == if prev.Err? then Err(prev.error)
         else if u.Err? then Err(u.error)
         else Ok((prev.value.0 + [Point(DominantCore(u.value, threshold), w[i].uptime)],
                  prev.value.1 + [Disparity(u.value)]))
  {
    assert w[..i + 1][..i] == w[..i];
    assert w[..i + 1][i] == w[i];
  }
}
