/** The earlier `FileStats`: the same window, task times and statistics as the
    current one (`LabelWindow`), a dominant core chosen among six fixed columns
    and reported 1-based, and a change counter that ignores switches made through
    a row without a dominant core. */
module LegacyFileStats {
  import opened Wrappers
  import opened LabelWindow
  import opened FileStats

  /** `core_1_usage` .. `core_6_usage`. */
  function LegacyCoreColumns(): (cs: seq<string>)
    ensures |cs| == 6 && forall i :: 0 <= i < 6 ==> cs[i] == CoreColumn(i + 1)
  {
    seq(6, i requires 0 <= i < 6 => CoreColumn(i + 1))
  }

  /** The 1-based result: None for no dominant core. */
  function OneBased(d: int): Option<nat> {
    if d < 0 then None else Some(d + 1)
  }

  /** `_find_dominant_core` of the earlier version, on the usage of the six cores. */
  method FindDominantCoreLegacy(u: seq<real>, threshold: real) returns (dominant: Option<nat>)
    ensures dominant == OneBased(DominantCore(u, threshold))
    ensures dominant.None? <==> forall i :: 0 <= i < |u| ==> !Dominates(u, i, threshold)
    ensures dominant.Some? ==> 1 <= dominant.value <= |u| && Dominates(u, dominant.value - 1, threshold)
  {
    var maxUsage := 0.0;
    dominant := None;
    var i := 0;
    while i < |u|
      invariant 0 <= i <= |u|
      invariant maxUsage == Scan(u, threshold, i).0 && dominant == OneBased(Scan(u, threshold, i).1)
      invariant maxUsage >= 0.0
    {
      if u[i] > maxUsage && forall j :: 0 <= j < |u| && j != i ==> u[i] - u[j] >= threshold {
        maxUsage := u[i];
        dominant := Some(i + 1);
      }
      i := i + 1;
    }
    DominantCoreSpec(u, threshold);
  }

  /** Each window row's 1-based dominant core, or the KeyError of the first row
      lacking one of the six columns. */
  function LegacyDominants(w: seq<Sample>, threshold: real): (r: Result<seq<Option<nat>>>)
    ensures r.Ok? ==> |r.value| == |w|
  {
    if |w| == 0 then Ok([])
    else
      var rest :- LegacyDominants(w[..|w| - 1], threshold);
      var u :- CoreUsages(w[|w| - 1], LegacyCoreColumns());
      Ok(rest + [OneBased(DominantCore(u, threshold))])
  }

  /** Row i counts as a change: it and the row before both have a dominant core,
      and the two differ. */
  predicate LegacyChangeAt(ds: seq<Option<nat>>, i: nat)
    requires i < |ds|
  {
    i > 0 && ds[i - 1].Some? && ds[i].Some? && ds[i] != ds[i - 1]
  }

  function LegacyCount(ds: seq<Option<nat>>): nat {
    if |ds| == 0 then 0 else LegacyCount(ds[..|ds| - 1]) + (if LegacyChangeAt(ds, |ds| - 1) then 1 else 0)
  }

  /** One more row adds a change exactly when it and the row before both have a
      dominant core and the two differ. */
  lemma LegacyCountSnoc(ds: seq<Option<nat>>, d: Option<nat>)
    ensures LegacyCount(ds + [d])
         == LegacyCount(ds) + (if |ds| > 0 && ds[|ds| - 1].Some? && d.Some? && d != ds[|ds| - 1] then 1 else 0)
  {
    assert (ds + [d])[..|ds|] == ds;
  }

  /** What iterating over the None window raises. */
  const NoWindowRows: Error := AttributeError("'NoneType' object has no attribute 'iterrows'")

  /** `track_dominant_core_changes_between_labels` of the earlier version: the
      number of changes of dominant core over the window (a count, not a duration). */
  function LegacyTrackSpec(rows: seq<Sample>, start: string, finish: string, threshold: real): Result<nat> {
    match Window(rows, start, finish)
    case None => Err(NoWindowRows)
    case Some(w) =>
      var ds :- LegacyDominants(w, threshold);
      Ok(LegacyCount(ds))
  }

  lemma {:induction false} LegacyDominantsPrefixError(w: seq<Sample>, threshold: real, j: nat)
    requires j <= |w| && LegacyDominants(w[..j], threshold).Err?
    ensures LegacyDominants(w, threshold) == LegacyDominants(w[..j], threshold)
    decreases |w| - j
  {
    if j < |w| {
      var init := w[..|w| - 1];
      assert init[..j] == w[..j];
      LegacyDominantsPrefixError(init, threshold, j);
    } else {
      assert w[..j] == w;
    }
  }

  lemma LegacyDominantsStep(w: seq<Sample>, threshold: real, i: nat)
    requires i < |w|
    ensures var prev := LegacyDominants(w[..i], threshold);
      var u := CoreUsages(w[i], LegacyCoreColumns());
      LegacyDominants(w[..i + 1], threshold)
      == if prev.Err? then Err(prev.error)
         else if u.Err? then Err(u.error)
         else Ok(prev.value + [OneBased(DominantCore(u.value, threshold))])
  {
    assert w[..i + 1][..i] == w[..i];
    assert w[..i + 1][i] == w[i];
  }

  /** The loop of the earlier tracker: the tracked core is compared with the row's
      only when both are truthy (1-based, so every core is), and otherwise simply
      replaced. */
  method LegacyTrackDominantCoreChanges(rows: seq<Sample>, start: string, finish: string, threshold: real)
    returns (r: Result<nat>)
    ensures r == LegacyTrackSpec(rows, start, finish, threshold)
  {
    var window := Window(rows, start, finish);
    if window.None? {
      return Err(NoWindowRows);
    }
    var w := window.value;
    ghost var ds: seq<Option<nat>> := [];
    var changes := 0;
    var current: Option<nat> := None;
    var i := 0;
    while i < |w|
      invariant 0 <= i <= |w|
      invariant LegacyDominants(w[..i], threshold) == Ok(ds) && |ds| == i
      invariant current == if i == 0 then None else ds[i - 1]
      invariant changes == LegacyCount(ds)
    {
      LegacyDominantsStep(w, threshold, i);
      var u := CoreUsages(w[i], LegacyCoreColumns());
      if u.Err? {
        LegacyDominantsPrefixError(w, threshold, i + 1);
        return Err(u.error);
      }
      var dominant := FindDominantCoreLegacy(u.value, threshold);
      current, changes := LegacyAdvance(current, changes, dominant, ds);
      ds := ds + [dominant];
      i := i + 1;
    }
    assert w[..i] == w;
    return Ok(changes);
  }

  /** One iteration: a change is counted only when both cores are known and differ;
      either way the row's core becomes the tracked one. */
  method LegacyAdvance(current: Option<nat>, changes: nat, dominant: Option<nat>, ghost ds: seq<Option<nat>>)
    returns (current': Option<nat>, changes': nat)
    requires current == (if |ds| == 0 then None else ds[|ds| - 1]) && changes == LegacyCount(ds)
    ensures current' == dominant && changes' == LegacyCount(ds + [dominant])
  {
    LegacyCountSnoc(ds, dominant);
    current', changes' := current, changes;
    if current.Some? && dominant.Some? {
      if dominant != current {
        current' := dominant;
        changes' := changes + 1;
      }
    } else {
      current' := dominant;
    }
  }

  /** The count is at most one less than the number of rows. */
  lemma {:induction false} LegacyCountBound(ds: seq<Option<nat>>)
    requires |ds| > 0
    ensures LegacyCount(ds) <= |ds| - 1
  {
    if |ds| > 1 {
      LegacyCountBound(ds[..|ds| - 1]);
    }
  }

  /** A row without a dominant core breaks the comparison: neither it nor the row
      after it counts, so A, None, B adds no change. */
  lemma NoneRowResets(ds: seq<Option<nat>>, i: nat)
    requires i < |ds| && ds[i].None?
    ensures !LegacyChangeAt(ds, i)
    ensures i + 1 < |ds| ==> !LegacyChangeAt(ds, i + 1)
  {
  }

  /** On the same per-row dominant cores the earlier version never counts more
      changes than the current one, which also counts the first dominant row and
      every return after a row without a dominant core. */
  lemma {:induction false} LegacyCountsFewer(doms: seq<int>, uptimes: seq<real>, k: nat)
    requires |doms| == |uptimes| && k <= |doms|
    ensures var ds := seq(|doms|, i requires 0 <= i < |doms| => OneBased(doms[i]));
      var ps := seq(|doms|, i requires 0 <= i < |doms| => Point(doms[i], uptimes[i]));
      LegacyCount(ds[..k]) <= CountChanges(ps, k)
  {
    if k > 0 {
      LegacyCountsFewer(doms, uptimes, k - 1);
      var ds := seq(|doms|, i requires 0 <= i < |doms| => OneBased(doms[i]));
      assert ds[..k][..k - 1] == ds[..k - 1];
    }
  }
}
