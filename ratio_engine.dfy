/** The cross-run ratio engine of the energy experiments: the flavour and run id
    read from a result file's name, the coefficient of variation, the grouping of
    files by run, the per-run nogil/gil ratios of each metric, their geometric-mean
    confidence intervals and the aggregate row of one stats file. Logarithm,
    exponential and square root are parameters (`MathOps`) of which only the
    facts stated in `Lawful` are known. */
module RatioEngine {
  import opened Wrappers
  import opened Text
  import opened Ordering
  import opened LabelWindow
  import opened FileStats
  import CsvBuffer

  // ---------------------------------------------------------------------------
  // File names

  /** The flavour the pattern `_(nogil|gil)_` matches at position p, if any. */
  function FlavorAt(s: string, p: nat): Option<string> {
    if OccursAt(s, "_nogil_", p) then Some("nogil")
    else if OccursAt(s, "_gil_", p) then Some("gil")
    else None
  }

  /** `re.search` of the flavour pattern from position p on. */
  function SearchFlavor(s: string, p: nat): (r: Option<string>)
    requires p <= |s|
    ensures r.Some? ==> r.value == "nogil" || r.value == "gil"
    decreases |s| - p
  {
    if FlavorAt(s, p).Some? then FlavorAt(s, p)
    else if p == |s| then None
    else SearchFlavor(s, p + 1)
  }

  /** The match at q is the first one from p on. */
  predicate FirstFlavorAt(s: string, p: nat, q: nat, r: Option<string>) {
    p <= q <= |s| && FlavorAt(s, q) == r && forall k :: p <= k < q ==> FlavorAt(s, k).None?
  }

  /** The search finds the leftmost match, and finds nothing only where nothing matches. */
  lemma {:induction false} SearchFlavorSpec(s: string, p: nat)
    requires p <= |s|
    ensures SearchFlavor(s, p).Some? ==> exists q :: FirstFlavorAt(s, p, q, SearchFlavor(s, p))
    ensures SearchFlavor(s, p).None? ==> forall q :: p <= q <= |s| ==> FlavorAt(s, q).None?
    decreases |s| - p
  {
    var r := SearchFlavor(s, p);
    if FlavorAt(s, p).Some? {
      assert FirstFlavorAt(s, p, p, r);
    } else if p < |s| {
      SearchFlavorSpec(s, p + 1);
      if r.Some? {
        var q :| FirstFlavorAt(s, p + 1, q, r);
        assert FirstFlavorAt(s, p, q, r);
      }
    }
  }

  /** Neither `_nogil_` nor `_gil_` occurs anywhere in s. */
  predicate NoFlavor(s: string) {
    forall q :: 0 <= q <= |s| ==> FlavorAt(s, q).None?
  }

  /** `_extract_flavor`: the flavour of the leftmost `_nogil_` or `_gil_` in the
      basename; a name with neither raises ValueError. */
  function ExtractFlavor(path: string): (r: Result<string>)
    ensures r.Ok? ==> r.value == "nogil" || r.value == "gil"
    ensures r.Err? <==> NoFlavor(Basename(path))
    ensures r.Err? ==> r.error == ValueError("Unable to infer flavor from filename: " + path)
  {
    var name := Basename(path);
    var found := SearchFlavor(name, 0);
    assert found.None? <==> NoFlavor(name) by {
      SearchFlavorSpec(name, 0);
      if found.Some? {
        var q :| FirstFlavorAt(name, 0, q, found);
      }
    }
    if found.None? then Err(ValueError("Unable to infer flavor from filename: " + path))
    else Ok(found.value)
  }

  /** The run id the pattern `_run([^_]+)_` captures at position p, if any: the
      characters after `_run` up to the next underscore, of which there must be one. */
  function RunIdAt(s: string, p: nat): (r: Option<string>)
    ensures r.Some? ==> |r.value| > 0 && '_' !in r.value
  {
    if !OccursAt(s, "_run", p) then None
    else
      match FindFrom(s, "_", p + 4)
      case None => None
      case Some(j) =>
        if j == p + 4 then None
        else
          assert forall k :: p + 4 <= k < j ==> s[k] != '_' by {
            forall k | p + 4 <= k < j ensures s[k] != '_' {
              assert !OccursAt(s, "_", k);
              assert s[k..k + 1] == [s[k]];
            }
          }
          Some(s[p + 4..j])
  }

  function SearchRunId(s: string, p: nat): (r: Option<string>)
    requires p <= |s|
    ensures r.Some? ==> |r.value| > 0 && '_' !in r.value
    decreases |s| - p
  {
    if RunIdAt(s, p).Some? then RunIdAt(s, p)
    else if p == |s| then None
    else SearchRunId(s, p + 1)
  }

  /** The capture at q is the first one from p on. */
  predicate FirstRunIdAt(s: string, p: nat, q: nat, r: Option<string>) {
    p <= q <= |s| && RunIdAt(s, q) == r && forall k :: p <= k < q ==> RunIdAt(s, k).None?
  }

  /** The search finds the leftmost capture, and finds nothing only where nothing matches. */
  lemma {:induction false} SearchRunIdSpec(s: string, p: nat)
    requires p <= |s|
    ensures SearchRunId(s, p).Some? ==> exists q :: FirstRunIdAt(s, p, q, SearchRunId(s, p))
    ensures SearchRunId(s, p).None? ==> forall q :: p <= q <= |s| ==> RunIdAt(s, q).None?
    decreases |s| - p
  {
    var r := SearchRunId(s, p);
    if RunIdAt(s, p).Some? {
      assert FirstRunIdAt(s, p, p, r);
    } else if p < |s| {
      SearchRunIdSpec(s, p + 1);
      if r.Some? {
        var q :| FirstRunIdAt(s, p + 1, q, r);
        assert FirstRunIdAt(s, p, q, r);
      }
    }
  }

  /** `_extract_run_id`: the capture of the leftmost `_run<id>_` in the basename. */
  function ExtractRunId(path: string): (r: Option<string>)
    ensures r.Some? ==> |r.value| > 0 && '_' !in r.value
  {
    SearchRunId(Basename(path), 0)
  }

  /** A name without '/' is its own basename. */
  lemma OwnBasename(name: string)
    requires '/' !in name
    ensures Basename(name) == name
  {
    BasenameUnique(name, name);
  }

  /** Where a pattern occurs, the string holds each of its characters. */
  lemma OccursAtChar(s: string, pat: string, p: nat, k: nat)
    requires k < |pat|
    ensures OccursAt(s, pat, p) ==> s[p + k] == pat[k]
  {
    if OccursAt(s, pat, p) {
      assert s[p..p + |pat|][k] == s[p + k];
    }
  }

  /** No flavour match starts inside an underscore-free prefix. */
  lemma NoFlavorBefore(s: string, q: nat)
    requires q <= |s| && forall k :: 0 <= k < q ==> s[k] != '_'
    ensures forall k :: 0 <= k < q ==> FlavorAt(s, k).None?
  {
    forall k | 0 <= k < q ensures FlavorAt(s, k).None? {
      OccursAtChar(s, "_nogil_", k, 0);
      OccursAtChar(s, "_gil_", k, 0);
    }
  }

  lemma SlashFree(a: string, b: string)
    requires '/' !in a && '/' !in b
    ensures '/' !in a + b
  {
    assert forall c :: c in a + b ==> c in a || c in b;
  }

  /** `_gil_` or `_nogil_` at p is a flavour match there. */
  lemma FlavorAtMatch(s: string, p: nat, flavor: string)
    requires flavor == "gil" || flavor == "nogil"
    requires p + |flavor| + 2 <= |s| && s[p..p + |flavor| + 2] == "_" + flavor + "_"
    ensures FlavorAt(s, p) == Some(flavor)
  {
    if flavor == "gil" {
      assert s[p + 1] == s[p..p + 5][1] == 'g';
      OccursAtChar(s, "_nogil_", p, 1);
    }
  }

  /** A file name made of an underscore-free stem, `_<flavour>_` and any tail
      yields that flavour. */
  lemma FlavorOfName(stem: string, flavor: string, tail: string)
    requires flavor == "gil" || flavor == "nogil"
    requires '_' !in stem && '/' !in stem && '/' !in tail
    ensures ExtractFlavor(stem + "_" + flavor + "_" + tail) == Ok(flavor)
  {
    var name := stem + "_" + flavor + "_" + tail;
    SlashFree(stem, "_");
    SlashFree(stem + "_", flavor);
    SlashFree(stem + "_" + flavor, "_");
    SlashFree(stem + "_" + flavor + "_", tail);
    OwnBasename(name);
    FlavorAfterStem(stem, flavor, tail);
  }

  /** The leftmost flavour match in such a name is the one right after the stem. */
  lemma FlavorAfterStem(stem: string, flavor: string, tail: string)
    requires flavor == "gil" || flavor == "nogil"
    requires '_' !in stem
    ensures SearchFlavor(stem + "_" + flavor + "_" + tail, 0) == Some(flavor)
  {
    var name := stem + "_" + flavor + "_" + tail;
    var p := |stem|;
    assert name[p..p + |flavor| + 2] == "_" + flavor + "_";
    FlavorAtMatch(name, p, flavor);
    assert forall k :: 0 <= k < p ==> name[k] == stem[k];
    NoFlavorBefore(name, p);
    LeftmostFlavor(name, p);
  }

  lemma LeftmostFlavor(s: string, q: nat)
    requires q <= |s| && forall k :: 0 <= k < q ==> FlavorAt(s, k).None?
    ensures SearchFlavor(s, 0) == SearchFlavor(s, q)
  {
    var k := q;
    while k > 0
      invariant 0 <= k <= q
      invariant SearchFlavor(s, k) == SearchFlavor(s, q)
    {
      k := k - 1;
    }
  }

  /** No run id match starts inside an underscore-free prefix. */
  lemma NoRunIdBefore(s: string, q: nat)
    requires q <= |s| && forall k :: 0 <= k < q ==> s[k] != '_'
    ensures forall k :: 0 <= k < q ==> RunIdAt(s, k).None?
  {
    forall k | 0 <= k < q ensures RunIdAt(s, k).None? {
      OccursAtChar(s, "_run", k, 0);
    }
  }

  /** `_run`, a non-empty underscore-free id and an underscore at p capture the id. */
  lemma RunIdAtMatch(s: string, p: nat, id: string)
    requires p + 4 + |id| < |s| && s[p..p + 4] == "_run" && s[p + 4..p + 4 + |id|] == id
    requires s[p + 4 + |id|] == '_' && |id| > 0 && '_' !in id
    ensures RunIdAt(s, p) == Some(id)
  {
    var e := p + 4 + |id|;
    assert OccursAt(s, "_", e) by {
      assert s[e..e + 1] == [s[e]];
    }
    forall k | p + 4 <= k < e ensures !OccursAt(s, "_", k) {
      assert s[k] == s[p + 4..e][k - p - 4];
      OccursAtChar(s, "_", k, 0);
    }
    var j := FindFrom(s, "_", p + 4);
    assert j == Some(e);
  }

  /** A file name made of an underscore-free stem, `_run<id>_` and any tail yields
      that id when it is non-empty and free of underscores. */
  lemma RunIdOfName(stem: string, id: string, tail: string)
    requires '_' !in stem && '/' !in stem && '/' !in id && '/' !in tail
    requires |id| > 0 && '_' !in id
    ensures ExtractRunId(stem + "_run" + id + "_" + tail) == Some(id)
  {
    var name := stem + "_run" + id + "_" + tail;
    SlashFree(stem, "_run");
    SlashFree(stem + "_run", id);
    SlashFree(stem + "_run" + id, "_");
    SlashFree(stem + "_run" + id + "_", tail);
    OwnBasename(name);
    var p := |stem|;
    assert name[p..p + 4] == "_run";
    assert name[p + 4..p + 4 + |id|] == id;
    assert name[p + 4 + |id|] == '_';
    RunIdAtMatch(name, p, id);
    assert forall k :: 0 <= k < p ==> name[k] == stem[k];
    NoRunIdBefore(name, p);
    LeftmostRunId(name, p);
  }

  lemma LeftmostRunId(s: string, q: nat)
    requires q <= |s| && forall k :: 0 <= k < q ==> RunIdAt(s, k).None?
    ensures SearchRunId(s, 0) == SearchRunId(s, q)
  {
    var k := q;
    while k > 0
      invariant 0 <= k <= q
      invariant SearchRunId(s, k) == SearchRunId(s, q)
    {
      k := k - 1;
    }
  }

  /** `_cv`: standard deviation over mean, and 0 when the mean is 0 (never a
      division by zero). */
  function Cv(std: real, mean: real): (r: real)
    ensures mean != 0.0 ==> r * mean == std
    ensures mean == 0.0 ==> r == 0.0
  {
    if mean != 0.0 then std / mean else 0.0
  }

  // ---------------------------------------------------------------------------
  // Grouping files by run id

  /** A dictionary from run id to the files of that run, in insertion order. */
  type Groups = seq<(Option<string>, seq<string>)>

  predicate DistinctGroups(g: Groups) {
    forall i, j :: 0 <= i < j < |g| ==> g[i].0 != g[j].0
  }

  /** `grouped.setdefault(k, []).append(x)`. */
  function AddTo(g: Groups, k: Option<string>, x: string): Groups {
    if |g| == 0 then [(k, [x])]
    else if g[0].0 == k then [(k, g[0].1 + [x])] + g[1..]
    else [g[0]] + AddTo(g[1..], k, x)
  }

  /** A new key goes at the end with x alone; a known key keeps the key order. */
  lemma {:induction false} AddToKeys(g: Groups, k: Option<string>, x: string)
    ensures Firsts(AddTo(g, k, x)) == if k in Firsts(g) then Firsts(g) else Firsts(g) + [k]
    ensures k !in Firsts(g) ==> AddTo(g, k, x) == g + [(k, [x])]
  {
    if |g| > 0 {
      if g[0].0 != k {
        AddToKeys(g[1..], k, x);
        AddToKeysCons(g, k, x);
      } else {
        AddToKeysFront(g, k, x);
      }
    }
  }

  lemma AddToKeysFront(g: Groups, k: Option<string>, x: string)
    requires |g| > 0 && g[0].0 == k
    ensures k in Firsts(g) && Firsts(AddTo(g, k, x)) == Firsts(g)
  {
    assert Firsts(g)[0] == k;
  }

  lemma AddToKeysCons(g: Groups, k: Option<string>, x: string)
    requires |g| > 0 && g[0].0 != k
    requires Firsts(AddTo(g[1..], k, x)) == if k in Firsts(g[1..]) then Firsts(g[1..]) else Firsts(g[1..]) + [k]
    requires k !in Firsts(g[1..]) ==> AddTo(g[1..], k, x) == g[1..] + [(k, [x])]
    ensures Firsts(AddTo(g, k, x)) == if k in Firsts(g) then Firsts(g) else Firsts(g) + [k]
    ensures k !in Firsts(g) ==> AddTo(g, k, x) == g + [(k, [x])]
  {
    var t := g[1..];
    var kt := Firsts(t);
    var rt := AddTo(t, k, x);
    assert g == [g[0]] + t;
    KeysPrepend(g[0], t);
    KeysPrepend(g[0], rt);
    assert AddTo(g, k, x) == [g[0]] + rt;
    if k !in kt {
      AppendAssocGroups([g[0]], t, [(k, [x])]);
      AppendAssocKeys([g[0].0], kt, [k]);
    }
  }

  lemma KeysPrepend(h: (Option<string>, seq<string>), rest: Groups)
    ensures Firsts([h] + rest) == [h.0] + Firsts(rest)
  {
  }

  lemma AppendAssocGroups(a: Groups, b: Groups, c: Groups)
    ensures a + (b + c) == (a + b) + c
  {
  }

  lemma AppendAssocKeys(a: seq<Option<string>>, b: seq<Option<string>>, c: seq<Option<string>>)
    ensures a + (b + c) == (a + b) + c
  {
  }

  /** With distinct keys, adding keeps them distinct, appends x to the group of k
      and leaves every other group as it was. */
  lemma AddToSpec(g: Groups, k: Option<string>, x: string)
    requires DistinctGroups(g)
    ensures DistinctGroups(AddTo(g, k, x)) && |AddTo(g, k, x)| >= |g|
    ensures forall i :: 0 <= i < |g| ==> AddTo(g, k, x)[i].1 == if g[i].0 == k then g[i].1 + [x] else g[i].1
  {
    var r := AddTo(g, k, x);
    assert DistinctGroups(r) by {
      AddToKeys(g, k, x);
      assert forall i :: 0 <= i < |r| ==> r[i].0 == Firsts(r)[i];
    }
    AddToGroups(g, k, x);
  }

  lemma {:induction false} AddToGroups(g: Groups, k: Option<string>, x: string)
    requires DistinctGroups(g)
    ensures |AddTo(g, k, x)| >= |g|
    ensures forall i :: 0 <= i < |g| ==> AddTo(g, k, x)[i].1 == if g[i].0 == k then g[i].1 + [x] else g[i].1
  {
    if |g| > 0 {
      var r := AddTo(g, k, x);
      var t := g[1..];
      if g[0].0 != k {
        assert DistinctGroups(t) by {
          forall i, j | 0 <= i < j < |t| ensures t[i].0 != t[j].0 {
            assert t[i] == g[i + 1] && t[j] == g[j + 1];
          }
        }
        AddToGroups(t, k, x);
        var rt := AddTo(t, k, x);
        assert r == [g[0]] + rt;
        forall i | 1 <= i < |g| ensures r[i].1 == if g[i].0 == k then g[i].1 + [x] else g[i].1 {
          assert r[i] == rt[i - 1] && g[i] == t[i - 1];
        }
      } else {
        assert r == [(k, g[0].1 + [x])] + t;
        forall i | 1 <= i < |g| ensures r[i].1 == g[i].1 && g[i].0 != k {
          assert g[0].0 != g[i].0;
        }
      }
    }
  }

  /** The files of `paths` whose run id is k, in input order. */
  function Members(paths: seq<string>, k: Option<string>): seq<string> {
    if |paths| == 0 then []
    else Members(paths[..|paths| - 1], k) + (if ExtractRunId(paths[|paths| - 1]) == k then [paths[|paths| - 1]] else [])
  }

  /** The run ids of `paths` in order of first appearance. */
  function FirstAppearances(paths: seq<string>): seq<Option<string>> {
    if |paths| == 0 then []
    else
      var ks := FirstAppearances(paths[..|paths| - 1]);
      var k := ExtractRunId(paths[|paths| - 1]);
      if k in ks then ks else ks + [k]
  }

  function Grouped(paths: seq<string>): Groups {
    if |paths| == 0 then [] else AddTo(Grouped(paths[..|paths| - 1]), ExtractRunId(paths[|paths| - 1]), paths[|paths| - 1])
  }

  /** `_group_files_by_run_id` on the files' paths. */
  method GroupFilesByRunId(paths: seq<string>) returns (grouped: Groups)
    ensures grouped == Grouped(paths)
  {
    grouped := [];
    var i := 0;
    while i < |paths|
      invariant 0 <= i <= |paths|
      invariant grouped == Grouped(paths[..i])
    {
      assert paths[..i + 1][..i] == paths[..i];
      grouped := AddTo(grouped, ExtractRunId(paths[i]), paths[i]);
      i := i + 1;
    }
    assert paths[..i] == paths;
  }

  /** Every file lands in exactly one group, the one of its run id: the groups have
      distinct keys in order of first appearance, and each holds the files of its
      run in input order. */
  lemma {:induction false} GroupedSpec(paths: seq<string>)
    ensures var g := Grouped(paths);
      DistinctGroups(g) && Firsts(g) == FirstAppearances(paths)
      && forall i :: 0 <= i < |g| ==> g[i].1 == Members(paths, g[i].0) && g[i].1 != []
  {
    if |paths| > 0 {
      var init := paths[..|paths| - 1];
      GroupedSpec(init);
      var g := Grouped(init);
      var k := ExtractRunId(paths[|paths| - 1]);
      var r := Grouped(paths);
      AddToKeys(g, k, paths[|paths| - 1]);
      AddToSpec(g, k, paths[|paths| - 1]);
      forall i | 0 <= i < |r| ensures r[i].1 == Members(paths, r[i].0) && r[i].1 != [] {
        if i == |g| {
          assert k !in Firsts(g);
          MembersAbsent(init, k);
        }
      }
    }
  }

  lemma {:induction false} MembersAbsent(paths: seq<string>, k: Option<string>)
    requires k !in FirstAppearances(paths)
    ensures Members(paths, k) == []
  {
    if |paths| > 0 {
      MembersAbsent(paths[..|paths| - 1], k);
    }
  }

  // ---------------------------------------------------------------------------
  // Math parameters

  datatype MathOps = MathOps(ln: real -> real, exp: real -> real, sqrt: real -> real)

  /** The facts used about the parameters: `exp` is monotone and the square root
      of a non-negative number is non-negative (positive for a positive one). */
  ghost predicate Lawful(ops: MathOps) {
    (forall x: real, y: real :: x <= y ==> ops.exp(x) <= ops.exp(y))
    && (forall x: real :: x >= 0.0 ==> ops.sqrt(x) >= 0.0)
    && (forall x: real :: x > 0.0 ==> ops.sqrt(x) > 0.0)
  }

  // ---------------------------------------------------------------------------
  // Per-run ratios

  /** The combined table: its columns and its rows, each a map from column to cell
      (a column missing from a row's map is an empty cell). */
  datatype Table = Table(columns: seq<string>, rows: seq<map<string, Cell>>)

  function Get(row: map<string, Cell>, c: string): Cell {
    if c in row then row[c] else Null
  }

  const RatioMetrics: seq<string> := ["uptime", "cpu_usage", "energy_max", "vms", "ram", "cores_disparity"]

  /** The ratio-metric columns present in the table, in the fixed order. */
  function MetricColumns(columns: seq<string>): (ms: seq<string>)
    ensures forall m :: m in ms <==> m in RatioMetrics && m in columns
  {
    Filter(RatioMetrics, columns)
  }

  function Filter(xs: seq<string>, columns: seq<string>): (ms: seq<string>)
    ensures forall m :: m in ms <==> m in xs && m in columns
  {
    if |xs| == 0 then []
    else (if xs[0] in columns then [xs[0]] else []) + Filter(xs[1..], columns)
  }

  /** One metric's comparison within a run. */
  datatype MetricRatio = MetricRatio(metric: string, ratio: Cell, diff: Cell, logRatio: Cell)

  datatype RatioRow = RatioRow(variant: Cell, runId: Cell, metrics: seq<MetricRatio>)

  /** `nogil / gil` when the gil value is a non-zero number, `|nogil - gil|`, and the
      logarithm of a positive ratio; anything else is an empty cell. */
  function CompareMetric(m: string, g: Cell, n: Cell, ops: MathOps): (r: MetricRatio)
    ensures r.metric == m
    ensures r.ratio.Num? <==> g.Num? && g.x != 0.0 && n.Num?
    ensures r.ratio.Num? ==> r.ratio.x * g.x == n.x
    ensures r.diff.Num? <==> g.Num? && n.Num?
    ensures r.diff.Num? ==> r.diff.x >= 0.0 && (r.diff.x == n.x - g.x || r.diff.x == g.x - n.x)
    ensures r.logRatio.Num? <==> r.ratio.Num? && r.ratio.x > 0.0
    ensures r.logRatio.Num? ==> r.logRatio.x == ops.ln(r.ratio.x)
  {
    var ratio := if g.Num? && g.x != 0.0 && n.Num? then Num(n.x / g.x) else Null;
    var diff := if g.Num? && n.Num? then Num(if n.x >= g.x then n.x - g.x else g.x - n.x) else Null;
    var logRatio := if ratio.Num? && ratio.x > 0.0 then Num(ops.ln(ratio.x)) else Null;
    MetricRatio(m, ratio, diff, logRatio)
  }

  /** The (run id, variant) key of a row. */
  function RunKey(row: map<string, Cell>, variantColumn: string): Key {
    [Get(row, "run_id"), Get(row, variantColumn)]
  }

  /** The distinct keys of `ks`, in order of first appearance. */
  function Distinct(ks: seq<Key>): (r: seq<Key>)
    ensures forall k :: k in r <==> k in ks
    ensures forall i, j :: 0 <= i < j < |r| ==> r[i] != r[j]
  {
    if |ks| == 0 then []
    else
      var d := Distinct(ks[..|ks| - 1]);
      assert forall k :: k in ks <==> k in ks[..|ks| - 1] || k == ks[|ks| - 1];
      if ks[|ks| - 1] in d then d else d + [ks[|ks| - 1]]
  }

  /** The keys of rows whose run id and variant are both present. */
  function PresentKeys(rows: seq<map<string, Cell>>, variantColumn: string): (ks: seq<Key>)
    ensures forall k :: k in ks <==> exists i :: 0 <= i < |rows| && k == RunKey(rows[i], variantColumn)
                                                  && k[0] != Null && k[1] != Null
  {
    if |rows| == 0 then []
    else
      var init := PresentKeys(rows[..|rows| - 1], variantColumn);
      var k := RunKey(rows[|rows| - 1], variantColumn);
      assert forall i :: 0 <= i < |rows| - 1 ==> rows[..|rows| - 1][i] == rows[i];
      if k[0] != Null && k[1] != Null then init + [k] else init
  }

  function Identity(k: Key): Key {
    k
  }

  /** `df.groupby(["run_id", variant])`: the keys with both parts present, each
      once, in ascending order. */
  function GroupKeys(rows: seq<map<string, Cell>>, variantColumn: string): seq<Key> {
    SortBy(Distinct(PresentKeys(rows, variantColumn)), Identity)
  }

  /** The first row of the group whose flavour is `flavor`. */
  function FirstOfFlavor(rows: seq<map<string, Cell>>, variantColumn: string, key: Key, flavor: string)
    : (r: Option<map<string, Cell>>)
    ensures r.Some? ==> exists i :: 0 <= i < |rows| && rows[i] == r.value
                                    && RunKey(rows[i], variantColumn) == key && Get(rows[i], "flavor") == Str(flavor)
                                    && forall j :: 0 <= j < i ==> !(RunKey(rows[j], variantColumn) == key
                                                                   && Get(rows[j], "flavor") == Str(flavor))
    ensures r.None? ==> forall i :: 0 <= i < |rows| ==> !(RunKey(rows[i], variantColumn) == key
                                                          && Get(rows[i], "flavor") == Str(flavor))
  {
    if |rows| == 0 then None
    else if RunKey(rows[0], variantColumn) == key && Get(rows[0], "flavor") == Str(flavor) then Some(rows[0])
    else
      assert forall i :: 1 <= i < |rows| ==> rows[i] == rows[1..][i - 1];
      FirstOfFlavor(rows[1..], variantColumn, key, flavor)
  }

  function CompareAll(ms: seq<string>, g: map<string, Cell>, n: map<string, Cell>, ops: MathOps)
    : (r: seq<MetricRatio>)
    ensures |r| == |ms| && forall i :: 0 <= i < |ms| ==> r[i] == CompareMetric(ms[i], Get(g, ms[i]), Get(n, ms[i]), ops)
  {
    seq(|ms|, i requires 0 <= i < |ms| => CompareMetric(ms[i], Get(g, ms[i]), Get(n, ms[i]), ops))
  }

  /** The ratio row of one group, when it holds both a gil and a nogil row. */
  function GroupRatio(t: Table, variantColumn: string, ms: seq<string>, key: Key, ops: MathOps): Option<RatioRow>
    requires |key| == 2
  {
    var g := FirstOfFlavor(t.rows, variantColumn, key, "gil");
    var n := FirstOfFlavor(t.rows, variantColumn, key, "nogil");
    if g.None? || n.None? then None
    else Some(RatioRow(key[1], key[0], CompareAll(ms, g.value, n.value, ops)))
  }

  function RatioRows(t: Table, variantColumn: string, ms: seq<string>, keys: seq<Key>, ops: MathOps): seq<RatioRow>
    requires forall i :: 0 <= i < |keys| ==> |keys[i]| == 2
  {
    if |keys| == 0 then []
    else
      var last := GroupRatio(t, variantColumn, ms, keys[|keys| - 1], ops);
      RatioRows(t, variantColumn, ms, keys[..|keys| - 1], ops) + (if last.Some? then [last.value] else [])
  }

  lemma GroupKeysShape(rows: seq<map<string, Cell>>, variantColumn: string)
    ensures forall i :: 0 <= i < |GroupKeys(rows, variantColumn)| ==> |GroupKeys(rows, variantColumn)[i]| == 2
  {
    var d := Distinct(PresentKeys(rows, variantColumn));
    forall i | 0 <= i < |GroupKeys(rows, variantColumn)| ensures |GroupKeys(rows, variantColumn)[i]| == 2 {
      var k := GroupKeys(rows, variantColumn)[i];
      assert k in multiset(GroupKeys(rows, variantColumn));
      assert k in d;
    }
  }

  /** The required columns are present and at least one metric column is. */
  predicate CanCompare(t: Table, variantColumn: string) {
    |t.rows| > 0 && "flavor" in t.columns && "run_id" in t.columns && variantColumn in t.columns
    && MetricColumns(t.columns) != []
  }

  /** `_compute_per_run_ratios`: nothing for an empty table, a missing required
      column or no metric column; otherwise one row per (run id, variant) group
      that has both flavours, in ascending key order. */
  function PerRunRatios(t: Table, variantColumn: string, ops: MathOps): seq<RatioRow> {
    if !CanCompare(t, variantColumn) then []
    else
      GroupKeysShape(t.rows, variantColumn);
      RatioRows(t, variantColumn, MetricColumns(t.columns), GroupKeys(t.rows, variantColumn), ops)
  }

  /** `_compute_per_run_ratios`, with the guards of `PerRunRatios`. */
  method ComputePerRunRatios(t: Table, variantColumn: string, ops: MathOps) returns (rows: seq<RatioRow>)
    ensures rows == PerRunRatios(t, variantColumn, ops)
  {
    if !CanCompare(t, variantColumn) {
      return [];
    }
    var keys := GroupKeys(t.rows, variantColumn);
    GroupKeysShape(t.rows, variantColumn);
    rows := CollectRatios(t, variantColumn, MetricColumns(t.columns), keys, ops);
  }

  /** The loop over the groups: a row for each key whose group holds both flavours. */
  method CollectRatios(t: Table, variantColumn: string, ms: seq<string>, keys: seq<Key>, ops: MathOps)
    returns (rows: seq<RatioRow>)
    requires forall i :: 0 <= i < |keys| ==> |keys[i]| == 2
    ensures rows == RatioRows(t, variantColumn, ms, keys, ops)
  {
    rows := [];
    var i := 0;
    while i < |keys|
      invariant 0 <= i <= |keys|
      invariant rows == RatioRows(t, variantColumn, ms, keys[..i], ops)
    {
      assert keys[..i + 1][..i] == keys[..i];
      var g := FirstOfFlavor(t.rows, variantColumn, keys[i], "gil");
      var n := FirstOfFlavor(t.rows, variantColumn, keys[i], "nogil");
      if g.Some? && n.Some? {
        rows := rows + [RatioRow(keys[i][1], keys[i][0], CompareAll(ms, g.value, n.value, ops))];
      }
      i := i + 1;
    }
    assert keys[..i] == keys;
  }

  function RowKey(r: RatioRow): Key {
    [r.runId, r.variant]
  }

  /** Keys in strictly ascending order. */
  predicate StrictlyAscending(ks: seq<Key>) {
    forall i, j :: 0 <= i < j < |ks| ==> KeyLt(ks[i], ks[j])
  }

  lemma SortedDistinctAscending(ks: seq<Key>)
    requires SortedBy(ks, Identity) && forall i, j :: 0 <= i < j < |ks| ==> ks[i] != ks[j]
    ensures StrictlyAscending(ks)
  {
    forall i, j | 0 <= i < j < |ks| ensures KeyLt(ks[i], ks[j]) {
      KeyLtTrichotomy(ks[i], ks[j]);
    }
  }

  lemma GroupKeysAscending(rows: seq<map<string, Cell>>, variantColumn: string)
    ensures StrictlyAscending(GroupKeys(rows, variantColumn))
  {
    var d := Distinct(PresentKeys(rows, variantColumn));
    var ks := GroupKeys(rows, variantColumn);
    assert SortedBy(ks, Identity) by { SortByIsSorted(d, Identity); }
    assert forall i, j :: 0 <= i < j < |ks| ==> ks[i] != ks[j] by { PermutationKeepsDistinct(d, ks); }
    SortedDistinctAscending(ks);
  }

  /** A reordering of a sequence without repeats has none either. */
  lemma PermutationKeepsDistinct(d: seq<Key>, ks: seq<Key>)
    requires multiset(ks) == multiset(d) && forall i, j :: 0 <= i < j < |d| ==> d[i] != d[j]
    ensures forall i, j :: 0 <= i < j < |ks| ==> ks[i] != ks[j]
  {
    forall i, j | 0 <= i < j < |ks| ensures ks[i] != ks[j] {
      if ks[i] == ks[j] {
        assert multiset(ks)[ks[i]] >= 2 by {
          assert ks == ks[..i] + [ks[i]] + ks[i + 1..j] + [ks[j]] + ks[j + 1..];
        }
        DistinctOnce(d, ks[i]);
      }
    }
  }

  lemma DistinctOnce(d: seq<Key>, k: Key)
    requires forall i, j :: 0 <= i < j < |d| ==> d[i] != d[j]
    ensures multiset(d)[k] <= 1
  {
    if |d| > 0 {
      DistinctOnce(d[1..], k);
      assert d == [d[0]] + d[1..];
      if d[0] == k {
        assert k !in d[1..];
      }
    }
  }

  lemma {:induction false} RatioRowsFromKeys(t: Table, variantColumn: string, ms: seq<string>, keys: seq<Key>, ops: MathOps)
    requires forall i :: 0 <= i < |keys| ==> |keys[i]| == 2
    ensures forall r :: r in RatioRows(t, variantColumn, ms, keys, ops) ==> RowKey(r) in keys
  {
    if |keys| > 0 {
      var init := keys[..|keys| - 1];
      RatioRowsFromKeys(t, variantColumn, ms, init, ops);
      var k := keys[|keys| - 1];
      assert [k[0], k[1]] == k;
    }
  }

  predicate AscendingRows(rs: seq<RatioRow>) {
    forall i, j :: 0 <= i < j < |rs| ==> KeyLt(RowKey(rs[i]), RowKey(rs[j]))
  }

  lemma {:induction false} RatioRowsAscending(t: Table, variantColumn: string, ms: seq<string>, keys: seq<Key>, ops: MathOps)
    requires forall i :: 0 <= i < |keys| ==> |keys[i]| == 2
    requires StrictlyAscending(keys)
    ensures AscendingRows(RatioRows(t, variantColumn, ms, keys, ops))
  {
    if |keys| > 0 {
      var init := keys[..|keys| - 1];
      var k := keys[|keys| - 1];
      assert StrictlyAscending(init);
      RatioRowsAscending(t, variantColumn, ms, init, ops);
      RatioRowsFromKeys(t, variantColumn, ms, init, ops);
      var rs0 := RatioRows(t, variantColumn, ms, init, ops);
      var rs := RatioRows(t, variantColumn, ms, keys, ops);
      var last := GroupRatio(t, variantColumn, ms, k, ops);
      assert rs == rs0 + (if last.Some? then [last.value] else []);
      forall i, j | 0 <= i < j < |rs| ensures KeyLt(RowKey(rs[i]), RowKey(rs[j])) {
        if j < |rs0| {
          assert rs[i] == rs0[i] && rs[j] == rs0[j];
        } else {
          assert rs[j] == last.value && RowKey(last.value) == [k[0], k[1]] == k;
          assert rs[i] == rs0[i] && rs0[i] in rs0;
          var p :| 0 <= p < |init| && init[p] == RowKey(rs0[i]);
          assert init[p] == keys[p];
          assert KeyLt(keys[p], keys[|keys| - 1]);
          assert RowKey(rs[i]) == keys[p] && RowKey(rs[j]) == keys[|keys| - 1];
          assert KeyLt(RowKey(rs[i]), RowKey(rs[j]));
        }
      }
    }
  }

  /** Row r compares, metric by metric, the first gil row and the first nogil row
      of its (run id, variant) group. */
  predicate Paired(t: Table, variantColumn: string, ms: seq<string>, r: RatioRow, ops: MathOps) {
    var g := FirstOfFlavor(t.rows, variantColumn, RowKey(r), "gil");
    var n := FirstOfFlavor(t.rows, variantColumn, RowKey(r), "nogil");
    g.Some? && n.Some? && r.metrics == CompareAll(ms, g.value, n.value, ops)
  }

  /** A key whose group holds both flavours. */
  predicate HasPair(t: Table, variantColumn: string, k: Key) {
    FirstOfFlavor(t.rows, variantColumn, k, "gil").Some? && FirstOfFlavor(t.rows, variantColumn, k, "nogil").Some?
  }

  /** Each output row compares the first gil and nogil rows of its group; every
      group with both flavours and both key parts present has its row; the rows
      are in strictly ascending (run id, variant) order; and a table that fails a
      guard gives none. */
  lemma PerRunRatiosSpec(t: Table, variantColumn: string, ops: MathOps)
    ensures var rs := PerRunRatios(t, variantColumn, ops);
      (!CanCompare(t, variantColumn) ==> rs == [])
      && AscendingRows(rs)
      && (forall r :: r in rs ==> Paired(t, variantColumn, MetricColumns(t.columns), r, ops))
      && (CanCompare(t, variantColumn) ==>
            forall i :: 0 <= i < |t.rows| && Get(t.rows[i], "run_id") != Null && Get(t.rows[i], variantColumn) != Null
                        && HasPair(t, variantColumn, RunKey(t.rows[i], variantColumn))
                        ==> exists r :: r in rs && RowKey(r) == RunKey(t.rows[i], variantColumn))
  {
    if CanCompare(t, variantColumn) {
      var keys := GroupKeys(t.rows, variantColumn);
      var ms := MetricColumns(t.columns);
      GroupKeysShape(t.rows, variantColumn);
      GroupKeysAscending(t.rows, variantColumn);
      RatioRowsAscending(t, variantColumn, ms, keys, ops);
      RatioRowsContents(t, variantColumn, ms, keys, ops);
      RatioRowsComplete(t, variantColumn, ms, keys, ops);
      GroupKeysCover(t.rows, variantColumn);
    }
  }

  lemma {:induction false} RatioRowsContents(t: Table, variantColumn: string, ms: seq<string>, keys: seq<Key>, ops: MathOps)
    requires forall i :: 0 <= i < |keys| ==> |keys[i]| == 2
    ensures forall r :: r in RatioRows(t, variantColumn, ms, keys, ops) ==> Paired(t, variantColumn, ms, r, ops)
  {
    if |keys| > 0 {
      RatioRowsContents(t, variantColumn, ms, keys[..|keys| - 1], ops);
      var k := keys[|keys| - 1];
      assert [k[0], k[1]] == k;
    }
  }

  lemma {:induction false} RatioRowsComplete(t: Table, variantColumn: string, ms: seq<string>, keys: seq<Key>, ops: MathOps)
    requires forall i :: 0 <= i < |keys| ==> |keys[i]| == 2
    ensures forall k :: k in keys && HasPair(t, variantColumn, k) ==>
              exists r :: r in RatioRows(t, variantColumn, ms, keys, ops) && RowKey(r) == k
  {
    if |keys| > 0 {
      var init := keys[..|keys| - 1];
      RatioRowsComplete(t, variantColumn, ms, init, ops);
      var last := keys[|keys| - 1];
      assert [last[0], last[1]] == last;
      var rs := RatioRows(t, variantColumn, ms, keys, ops);
      var rs0 := RatioRows(t, variantColumn, ms, init, ops);
      forall k | k in keys && HasPair(t, variantColumn, k)
        ensures exists r :: r in rs && RowKey(r) == k
      {
        if k != last {
          assert k in init;
          var r :| r in rs0 && RowKey(r) == k;
          assert r in rs;
        } else {
          assert GroupRatio(t, variantColumn, ms, last, ops).value in rs;
        }
      }
    }
  }

  /** The group keys are exactly the keys of the rows with both parts present. */
  lemma GroupKeysCover(rows: seq<map<string, Cell>>, variantColumn: string)
    ensures forall i :: 0 <= i < |rows| && Get(rows[i], "run_id") != Null && Get(rows[i], variantColumn) != Null
                        ==> RunKey(rows[i], variantColumn) in GroupKeys(rows, variantColumn)
  {
    var d := Distinct(PresentKeys(rows, variantColumn));
    forall i | 0 <= i < |rows| && Get(rows[i], "run_id") != Null && Get(rows[i], variantColumn) != Null
      ensures RunKey(rows[i], variantColumn) in GroupKeys(rows, variantColumn)
    {
      var k := RunKey(rows[i], variantColumn);
      assert k in d;
      assert k in multiset(d);
      assert k in multiset(GroupKeys(rows, variantColumn));
    }
  }

  // ---------------------------------------------------------------------------
  // Confidence intervals

  /** The fixed t value of the 95% interval. */
  const DefaultT: real := 4.303

  datatype Confidence = Confidence(variant: Cell, metric: string, ciLow: real, ciHigh: real, geoMeanRatio: real)

  /** The ratio cell of metric m in a row's comparisons, empty when it has none. */
  function FirstRatio(ms: seq<MetricRatio>, m: string): Cell {
    if |ms| == 0 then Null else if ms[0].metric == m then ms[0].ratio else FirstRatio(ms[1..], m)
  }

  /** The logarithms of the positive ratios of metric m, in row order. */
  function Logs(rows: seq<RatioRow>, m: string, ops: MathOps): (ls: seq<real>)
    ensures |ls| <= |rows|
  {
    if |rows| == 0 then []
    else
      var c := FirstRatio(rows[|rows| - 1].metrics, m);
      Logs(rows[..|rows| - 1], m, ops) + (if c.Num? && c.x > 0.0 then [ops.ln(c.x)] else [])
  }

  function SquaredDeviations(xs: seq<real>, mean: real): (s: real)
    ensures s >= 0.0
  {
    if |xs| == 0 then 0.0
    else
      var d := xs[|xs| - 1] - mean;
      SquaredDeviations(xs[..|xs| - 1], mean) + d * d
  }

  /** The interval of one (variant, metric) from its non-empty list of logarithms:
      the sample deviation and the t value are 0 for a single value. */
  function Interval(v: Cell, m: string, logs: seq<real>, ops: MathOps, tValue: real): (c: Confidence)
    requires |logs| > 0
  {
    var n := |logs| as real;
    var meanLog := Sum(logs) / n;
    var sdLog := if |logs| > 1 then ops.sqrt(SquaredDeviations(logs, meanLog) / (n - 1.0)) else 0.0;
    var root := ops.sqrt(n);
    var seLog := if root != 0.0 then sdLog / root else 0.0;
    var t := if |logs| > 1 then tValue else 0.0;
    Confidence(v, m, ops.exp(meanLog - t * seLog), ops.exp(meanLog + t * seLog), ops.exp(meanLog))
  }

  /** With lawful operations and a non-negative t value the geometric mean lies in
      its interval, and a single ratio gives the degenerate interval. */
  lemma IntervalBrackets(v: Cell, m: string, logs: seq<real>, ops: MathOps, tValue: real)
    requires |logs| > 0 && Lawful(ops) && tValue >= 0.0
    ensures var c := Interval(v, m, logs, ops, tValue);
      c.ciLow <= c.geoMeanRatio <= c.ciHigh
      && (|logs| == 1 ==> c.ciLow == c.geoMeanRatio == c.ciHigh)
  {
    var n := |logs| as real;
    var meanLog := Sum(logs) / n;
    var sdLog := if |logs| > 1 then ops.sqrt(SquaredDeviations(logs, meanLog) / (n - 1.0)) else 0.0;
    if |logs| > 1 {
      assert SquaredDeviations(logs, meanLog) / (n - 1.0) >= 0.0;
    }
    assert sdLog >= 0.0;
    assert ops.sqrt(n) > 0.0;
    var seLog := sdLog / ops.sqrt(n);
    assert seLog >= 0.0;
    var t := if |logs| > 1 then tValue else 0.0;
    assert t * seLog >= 0.0;
    assert ops.exp(meanLog - t * seLog) <= ops.exp(meanLog);
    assert ops.exp(meanLog) <= ops.exp(meanLog + t * seLog);
  }

  /** The distinct present variants, ascending: `groupby(variant)`. */
  function Variants(rows: seq<RatioRow>): seq<Key> {
    SortBy(Distinct(PresentVariants(rows)), Identity)
  }

  function PresentVariants(rows: seq<RatioRow>): seq<Key> {
    if |rows| == 0 then []
    else PresentVariants(rows[..|rows| - 1]) + (if rows[|rows| - 1].variant != Null then [[rows[|rows| - 1].variant]] else [])
  }

  function OfVariant(rows: seq<RatioRow>, v: Cell): (g: seq<RatioRow>)
    ensures forall r :: r in g ==> r in rows && r.variant == v
  {
    if |rows| == 0 then []
    else OfVariant(rows[..|rows| - 1], v) + (if rows[|rows| - 1].variant == v then [rows[|rows| - 1]] else [])
  }

  /** The intervals of one variant, metric by metric, skipping metrics without a
      positive ratio. */
  function VariantIntervals(group: seq<RatioRow>, v: Cell, ms: seq<string>, ops: MathOps, tValue: real): seq<Confidence> {
    if |ms| == 0 then []
    else
      var logs := Logs(group, ms[|ms| - 1], ops);
      VariantIntervals(group, v, ms[..|ms| - 1], ops, tValue)
      + (if |logs| > 0 then [Interval(v, ms[|ms| - 1], logs, ops, tValue)] else [])
  }

  function AllIntervals(rows: seq<RatioRow>, vs: seq<Key>, ms: seq<string>, ops: MathOps, tValue: real): seq<Confidence> {
    if |vs| == 0 then []
    else
      var v := if |vs[|vs| - 1]| > 0 then vs[|vs| - 1][0] else Null;
      AllIntervals(rows, vs[..|vs| - 1], ms, ops, tValue) + VariantIntervals(OfVariant(rows, v), v, ms, ops, tValue)
  }

  function ConfidenceKey(c: Confidence): Key {
    [c.variant, Str(c.metric)]
  }

  /** What selecting the five output columns of a table without rows raises. */
  function NoIntervalColumns(variantColumn: string): Error {
    KeyError("None of [Index(['" + variantColumn + "', 'metric', 'ci_low', 'ci_high', 'geo_mean_ratio'], dtype='object')] are in the [columns]")
  }

  /** The intervals sorted by (variant, metric). */
  function SortIntervals(cs: seq<Confidence>): (r: seq<Confidence>)
    ensures SortedBy(r, ConfidenceKey) && multiset(r) == multiset(cs) && |r| == |cs|
  {
    SortByIsSorted(cs, ConfidenceKey);
    SortByLength(cs, ConfidenceKey);
    SortBy(cs, ConfidenceKey)
  }

  /** `_compute_ratio_confidence` over the ratio metrics `ms` of the per-run rows:
      nothing for no rows; otherwise one interval per variant and metric with at
      least one positive ratio, sorted by (variant, metric), and a KeyError when
      there is not a single one, since the empty result has no columns to select. */
  function RatioConfidence(rows: seq<RatioRow>, variantColumn: string, ms: seq<string>, ops: MathOps, tValue: real)
    : (r: Result<seq<Confidence>>)
    ensures rows == [] ==> r == Ok([])
    ensures r.Err? ==> r.error == NoIntervalColumns(variantColumn)
    ensures r.Ok? ==> SortedBy(r.value, ConfidenceKey)
    ensures rows != [] && r.Ok? ==> r.value != []
  {
    if |rows| == 0 then Ok([])
    else SortedIntervals(AllIntervals(rows, Variants(rows), ms, ops, tValue), variantColumn)
  }

  /** The intervals sorted, or the KeyError of selecting columns of an empty table. */
  function SortedIntervals(cs: seq<Confidence>, variantColumn: string): (r: Result<seq<Confidence>>)
    ensures r.Err? <==> cs == []
    ensures r.Err? ==> r.error == NoIntervalColumns(variantColumn)
    ensures r.Ok? ==> SortedBy(r.value, ConfidenceKey) && multiset(r.value) == multiset(cs) && r.value != []
  {
    if cs == [] then Err(NoIntervalColumns(variantColumn))
    else Ok(SortIntervals(cs))
  }

  /** Only positive ratios enter: each logarithm is that of a positive ratio of
      the metric in one of the rows. */
  lemma {:induction false} LogsOfPositiveRatios(rows: seq<RatioRow>, m: string, ops: MathOps)
    ensures forall x :: x in Logs(rows, m, ops) ==>
              exists i :: 0 <= i < |rows| && FirstRatio(rows[i].metrics, m).Num? && FirstRatio(rows[i].metrics, m).x > 0.0
                          && x == ops.ln(FirstRatio(rows[i].metrics, m).x)
  {
    if |rows| > 0 {
      var init := rows[..|rows| - 1];
      LogsOfPositiveRatios(init, m, ops);
      forall x | x in Logs(rows, m, ops)
        ensures exists i :: 0 <= i < |rows| && FirstRatio(rows[i].metrics, m).Num? && FirstRatio(rows[i].metrics, m).x > 0.0
                            && x == ops.ln(FirstRatio(rows[i].metrics, m).x)
      {
        if x in Logs(init, m, ops) {
          var i :| 0 <= i < |init| && FirstRatio(init[i].metrics, m).Num? && FirstRatio(init[i].metrics, m).x > 0.0
                   && x == ops.ln(FirstRatio(init[i].metrics, m).x);
          assert rows[i] == init[i];
        } else {
          assert rows[|rows| - 1] == rows[|rows| - 1];
        }
      }
    }
  }

  lemma {:induction false} VariantIntervalsBracket(group: seq<RatioRow>, v: Cell, ms: seq<string>, ops: MathOps, tValue: real)
    requires Lawful(ops) && tValue >= 0.0
    ensures forall c :: c in VariantIntervals(group, v, ms, ops, tValue) ==> c.ciLow <= c.geoMeanRatio <= c.ciHigh
  {
    if |ms| > 0 {
      VariantIntervalsBracket(group, v, ms[..|ms| - 1], ops, tValue);
      var logs := Logs(group, ms[|ms| - 1], ops);
      if |logs| > 0 {
        IntervalBrackets(v, ms[|ms| - 1], logs, ops, tValue);
      }
    }
  }

  lemma {:induction false} AllIntervalsBracket(rows: seq<RatioRow>, vs: seq<Key>, ms: seq<string>, ops: MathOps, tValue: real)
    requires Lawful(ops) && tValue >= 0.0
    ensures forall c :: c in AllIntervals(rows, vs, ms, ops, tValue) ==> c.ciLow <= c.geoMeanRatio <= c.ciHigh
  {
    if |vs| > 0 {
      AllIntervalsBracket(rows, vs[..|vs| - 1], ms, ops, tValue);
      var v := if |vs[|vs| - 1]| > 0 then vs[|vs| - 1][0] else Null;
      VariantIntervalsBracket(OfVariant(rows, v), v, ms, ops, tValue);
    }
  }

  /** Every interval brackets its geometric mean ratio. */
  lemma ConfidenceBrackets(rows: seq<RatioRow>, variantColumn: string, ms: seq<string>, ops: MathOps, tValue: real)
    requires Lawful(ops) && tValue >= 0.0
    ensures var r := RatioConfidence(rows, variantColumn, ms, ops, tValue);
      r.Ok? ==> forall c :: c in r.value ==> c.ciLow <= c.geoMeanRatio <= c.ciHigh
  {
    if |rows| > 0 {
      var cs := AllIntervals(rows, Variants(rows), ms, ops, tValue);
      AllIntervalsBracket(rows, Variants(rows), ms, ops, tValue);
      forall c | c in SortBy(cs, ConfidenceKey) ensures c.ciLow <= c.geoMeanRatio <= c.ciHigh {
        assert c in multiset(SortBy(cs, ConfidenceKey));
      }
    }
  }

  // ---------------------------------------------------------------------------
  // Aggregate rows

  /** The columns of the aggregate table after the variant, flavour and run id. */
  const AggMetricColumns: seq<string> :=
    ["uptime", "cpu_usage", "cpu_usage_cv", "energy_max", "vms", "vms_cv", "ram", "ram_cv", "cores_disparity"]

  function AggColumns(variantColumn: string): (cs: seq<string>)
    ensures |cs| == 12 && cs[0] == variantColumn && cs[1] == "flavor" && cs[2] == "run_id"
  {
    [variantColumn, "flavor", "run_id"] + AggMetricColumns
  }

  /** The standard deviations of cpu usage, vms and ram over the label window. */
  datatype Deviations = Deviations(cpu: real, vms: real, ram: real)

  /** What `re.search` with the user's variant pattern gives on a file's base
      name: no match, a match of a pattern without a group 1, or the text of
      group 1 (None when that group took no part in the match). The pattern
      itself is not modelled. */
  datatype VariantMatch = NoMatch | NoGroup | Group(text: Option<string>)

  /** `_extract_variant`: `int(match.group(1))` when the pattern matched with a
      non-empty group 1, otherwise None. `int()` is the parameter `intOf` (None
      where it raises a ValueError); a pattern without a group 1 raises an
      IndexError. */
  function ExtractVariant(m: VariantMatch, intOf: string -> Option<int>): (r: Result<Option<int>>)
    ensures r.Ok? && r.value.Some? <==>
      m.Group? && m.text.Some? && m.text.value != "" && intOf(m.text.value).Some?
    ensures r.Ok? && r.value.Some? ==> r.value.value == intOf(m.text.value).value
    ensures r.Err? <==> m.NoGroup? || (m.Group? && m.text.Some? && m.text.value != "" && intOf(m.text.value).None?)
    ensures m.NoGroup? ==> r == Err(IndexError("no such group"))
    ensures r.Err? && !m.NoGroup? ==> r.error.ValueError?
  {
    match m
    case NoMatch => Ok(None)
    case NoGroup => Err(IndexError("no such group"))
    case Group(t) =>
      if t.None? || t.value == "" then Ok(None)
      else match intOf(t.value)
        case Some(n) => Ok(Some(n))
        case None => Err(ValueError("invalid literal for int() with base 10: '" + t.value + "'"))
  }

  /** One input file: its path, its loaded stats, the outcome of `_extract_variant`
      on its name (`ExtractVariant`), and what `get_std_between_labels` returns,
      None when the stats object has no such method. */
  datatype FileInput = FileInput(path: string, stats: Stats, variant: Result<Option<int>>, deviations: Option<Deviations>)

  /** What a successful load guarantees. */
  predicate Loaded(fs: Stats) {
    fs.numCores >= 1 && |fs.coreColumns| == fs.numCores
  }

  /** `_cv` on a mean that may be NaN: NaN is truthy, so the quotient stays NaN. */
  function CvCell(std: real, mean: Option<real>): Cell {
    if mean.Some? then Num(Cv(std, mean.value)) else Null
  }

  /** What calling the missing deviation method raises. */
  const NoDeviations: Error := AttributeError("'FileStats' object has no attribute 'get_std_between_labels'")

  /** The body of the `try` in `_aggregate_file_row`: the task's uptime, the
      window averages, the deviations, the maximum swap usage and the average
      core disparity, in the column order of the row, or the first error. */
  function FileMetrics(f: FileInput, taskLabel: string): (r: Result<seq<Cell>>)
    requires Loaded(f.stats)
    ensures r.Ok? ==> |r.value| == 9
  {
    var uptime := Lookup(GetTimes(f.stats.rows, "start_", "finish_"), taskLabel);
    if uptime.None? then Err(KeyError(taskLabel))
    else
      var start := "start_" + taskLabel;
      var finish := "finish_" + taskLabel;
      if Window(f.stats.rows, start, finish).None? then Err(NoWindow)
      else
        var avg := AverageBetweenLabels(f.stats.rows, start, finish).value;
        if f.deviations.None? then Err(NoDeviations)
        else
          var sd := f.deviations.value;
          var mm := MinMaxMemoryStats(f.stats.rows, start, finish).value;
          var tracked :- TrackBetweenLabels(f.stats, start, finish, DefaultThreshold);
          Ok(MetricsRow(uptime.value, avg, sd, mm, tracked.2))
  }

  /** The nine metric cells in the column order of the row. */
  function MetricsRow(uptime: real, avg: Averages, sd: Deviations, mm: MinMax, disparity: real): (r: seq<Cell>)
    ensures |r| == 9
  {
    [Num(uptime), OptCell(avg.cpu), CvCell(sd.cpu, avg.cpu), OptCell(mm.maxSwap),
     OptCell(avg.vms), CvCell(sd.vms, avg.vms), OptCell(avg.ram), CvCell(sd.ram, avg.ram), Num(disparity)]
  }

  /** The uptime of a task found in the task times is the span between its last
      start label and its last finish label. */
  lemma TaskUptimeSpan(rows: seq<Sample>, taskLabel: string)
    requires Lookup(GetTimes(rows, "start_", "finish_"), taskLabel).Some?
    ensures var a := LastLabelled(rows, "start_" + taskLabel);
      var b := LastLabelled(rows, "finish_" + taskLabel);
      a.Some? && b.Some?
      && Num(Lookup(GetTimes(rows, "start_", "finish_"), taskLabel).value) == Num(rows[b.value].uptime - rows[a.value].uptime)
  {
    GetTimesSpec(rows, "start_", "finish_", taskLabel);
  }

  /** Each mean sits beside a coefficient of variation that scales back to its deviation. */
  lemma MetricsRowSpec(uptime: real, avg: Averages, sd: Deviations, mm: MinMax, disparity: real)
    ensures var r := MetricsRow(uptime, avg, sd, mm, disparity);
      r[0] == Num(uptime) && r[3] == OptCell(mm.maxSwap) && r[8] == Num(disparity)
      && ScalesBack(r[1], r[2], sd.cpu) && ScalesBack(r[4], r[5], sd.vms) && ScalesBack(r[6], r[7], sd.ram)
  {
    CvScalesBack(sd.cpu, avg.cpu);
    CvScalesBack(sd.vms, avg.vms);
    CvScalesBack(sd.ram, avg.ram);
  }

  function RunIdCell(runId: Option<string>): Cell {
    if runId.Some? then Str(runId.value) else Null
  }

  function VariantCell(v: Option<int>): Cell {
    if v.Some? then Num(v.value as real) else Null
  }

  /** `_aggregate_file_row`: the flavour error and then the variant error
      propagate as they are, both raised before the `try`; any failure inside the
      `try` becomes a RuntimeError naming the file. */
  function AggregateFileRow(f: FileInput, taskLabel: string, runId: Option<string>): (r: Result<CsvBuffer.Record>)
    requires Loaded(f.stats)
    ensures r.Ok? ==> |r.value| == 12
  {
    RowOf(f.path, f.variant, runId, FileMetrics(f, taskLabel))
  }

  /** The row assembled from a file's name, variant, run id and metrics. */
  function RowOf(path: string, variant: Result<Option<int>>, runId: Option<string>, m: Result<seq<Cell>>): (r: Result<CsvBuffer.Record>)
    requires m.Ok? ==> |m.value| == 9
    ensures r.Ok? ==> |r.value| == 12
  {
    var flavor :- ExtractFlavor(path);
    var v :- variant;
    match m
    case Err(_) => Err(RuntimeError("Failed to process stats from " + path))
    case Ok(ms) => Ok([VariantCell(v), Str(flavor), RunIdCell(runId)] + ms)
  }

  /** A coefficient of variation that multiplies back to the deviation whenever
      the mean is a non-zero number. */
  predicate ScalesBack(mean: Cell, cv: Cell, sd: real) {
    mean.Num? && mean.x != 0.0 ==> cv.Num? && cv.x * mean.x == sd
  }

  lemma CvScalesBack(sd: real, mean: Option<real>)
    ensures ScalesBack(OptCell(mean), CvCell(sd, mean), sd)
  {
  }

  /** The metrics of a file: the uptime is the span from the task's start label to
      its finish label; the coefficients of variation scale back to the
      deviations; the energy column is the maximum swap usage of the window.
      Without the deviation method there are no metrics. */
  lemma FileMetricsSpec(f: FileInput, taskLabel: string)
    requires Loaded(f.stats)
    ensures var r := FileMetrics(f, taskLabel);
      (f.deviations.None? ==> r.Err?)
      && (r.Ok? ==>
            var rows := f.stats.rows;
            var a := LastLabelled(rows, "start_" + taskLabel);
            var b := LastLabelled(rows, "finish_" + taskLabel);
            var w := Window(rows, "start_" + taskLabel, "finish_" + taskLabel);
            var sd := f.deviations.value;
            f.deviations.Some? && a.Some? && b.Some? && w.Some?
            && r.value[0] == Num(rows[b.value].uptime - rows[a.value].uptime)
            && ScalesBack(r.value[1], r.value[2], sd.cpu)
            && r.value[3] == OptCell(Max(Column(w.value, SwapMemory)))
            && ScalesBack(r.value[4], r.value[5], sd.vms)
            && ScalesBack(r.value[6], r.value[7], sd.ram))
  {
    if FileMetrics(f, taskLabel).Ok? {
      FileMetricsUptime(f, taskLabel);
      FileMetricsCells(f, taskLabel);
    }
  }

  /** The first metric is the span between the task's last start and finish labels. */
  lemma FileMetricsUptime(f: FileInput, taskLabel: string)
    requires Loaded(f.stats) && FileMetrics(f, taskLabel).Ok?
    ensures var rows := f.stats.rows;
      var a := LastLabelled(rows, "start_" + taskLabel);
      var b := LastLabelled(rows, "finish_" + taskLabel);
      a.Some? && b.Some? && FileMetrics(f, taskLabel).value[0] == Num(rows[b.value].uptime - rows[a.value].uptime)
  {
    FileMetricsFirst(f, taskLabel);
    TaskUptimeSpan(f.stats.rows, taskLabel);
  }

  lemma FileMetricsFirst(f: FileInput, taskLabel: string)
    requires Loaded(f.stats) && FileMetrics(f, taskLabel).Ok?
    ensures Lookup(GetTimes(f.stats.rows, "start_", "finish_"), taskLabel).Some?
    ensures FileMetrics(f, taskLabel).value[0] == Num(Lookup(GetTimes(f.stats.rows, "start_", "finish_"), taskLabel).value)
  {
    var start := "start_" + taskLabel;
    var finish := "finish_" + taskLabel;
    var tracked := TrackBetweenLabels(f.stats, start, finish, DefaultThreshold).value;
    assert FileMetrics(f, taskLabel) == Ok(MetricsRow(Lookup(GetTimes(f.stats.rows, "start_", "finish_"), taskLabel).value,
      AverageBetweenLabels(f.stats.rows, start, finish).value, f.deviations.value,
      MinMaxMemoryStats(f.stats.rows, start, finish).value, tracked.2));
  }

  /** The other metrics: deviations present, a window, the maximum swap usage and
      the coefficients of variation that scale back. */
  lemma FileMetricsCells(f: FileInput, taskLabel: string)
    requires Loaded(f.stats) && FileMetrics(f, taskLabel).Ok?
    ensures var r := FileMetrics(f, taskLabel);
      var w := Window(f.stats.rows, "start_" + taskLabel, "finish_" + taskLabel);
      var sd := f.deviations.value;
      f.deviations.Some? && w.Some?
      && ScalesBack(r.value[1], r.value[2], sd.cpu)
      && r.value[3] == OptCell(Max(Column(w.value, SwapMemory)))
      && ScalesBack(r.value[4], r.value[5], sd.vms)
      && ScalesBack(r.value[6], r.value[7], sd.ram)
  {
    var r := FileMetrics(f, taskLabel);
    var rows := f.stats.rows;
    var start := "start_" + taskLabel;
    var finish := "finish_" + taskLabel;
    var uptime := Lookup(GetTimes(rows, "start_", "finish_"), taskLabel).value;
    assert Window(rows, start, finish).Some?;
    var avg := AverageBetweenLabels(rows, start, finish).value;
    var sd := f.deviations.value;
    var mm := MinMaxMemoryStats(rows, start, finish).value;
    var tracked := TrackBetweenLabels(f.stats, start, finish, DefaultThreshold).value;
    assert r.value == MetricsRow(uptime, avg, sd, mm, tracked.2);
    MetricsRowSpec(uptime, avg, sd, mm, tracked.2);
  }

  /** The row of a file is its variant, its flavour, its run id and its metrics.
      A name without a flavour fails with that ValueError, then a variant that
      cannot be read fails with its own error, and any failure of the metrics
      with a RuntimeError naming the file; so without the deviation method every
      file fails. */
  lemma AggregateFileRowSpec(f: FileInput, taskLabel: string, runId: Option<string>)
    requires Loaded(f.stats)
    ensures var r := AggregateFileRow(f, taskLabel, runId);
      var m := FileMetrics(f, taskLabel);
      (ExtractFlavor(f.path).Err? ==> r == Err(ExtractFlavor(f.path).error))
      && (ExtractFlavor(f.path).Ok? && f.variant.Err? ==> r == Err(f.variant.error))
      && (ExtractFlavor(f.path).Ok? && f.variant.Ok? && m.Err? ==> r == Err(RuntimeError("Failed to process stats from " + f.path)))
      && (f.deviations.None? ==> r.Err?)
      && (r.Ok? ==> m.Ok? && f.variant.Ok? && r.value[0] == VariantCell(f.variant.value)
                    && (r.value[1] == Str("gil") || r.value[1] == Str("nogil"))
                    && r.value[2] == RunIdCell(runId) && r.value[3..] == m.value)
  {
    var m := FileMetrics(f, taskLabel);
    assert f.deviations.None? ==> m.Err? by { FileMetricsSpec(f, taskLabel); }
    RowOfSpec(f.path, f.variant, runId, m);
  }

  lemma RowOfSpec(path: string, variant: Result<Option<int>>, runId: Option<string>, m: Result<seq<Cell>>)
    requires m.Ok? ==> |m.value| == 9
    ensures var r := RowOf(path, variant, runId, m);
      (ExtractFlavor(path).Err? ==> r == Err(ExtractFlavor(path).error))
      && (ExtractFlavor(path).Ok? && variant.Err? ==> r == Err(variant.error))
      && (ExtractFlavor(path).Ok? && variant.Ok? && m.Err? ==> r == Err(RuntimeError("Failed to process stats from " + path)))
      && (m.Err? || variant.Err? ==> r.Err?)
      && (r.Ok? ==> m.Ok? && variant.Ok? && r.value[0] == VariantCell(variant.value)
                    && ExtractFlavor(path).Ok? && r.value[1] == Str(ExtractFlavor(path).value)
                    && (r.value[1] == Str("gil") || r.value[1] == Str("nogil"))
                    && r.value[2] == RunIdCell(runId) && r.value[3..] == m.value)
  {
  }

  /** The aggregate rows of the files in order, or the first file's error. */
  function AggregateRows(files: seq<FileInput>, taskLabel: string, runId: Option<string>): (r: Result<seq<CsvBuffer.Record>>)
    requires forall i :: 0 <= i < |files| ==> Loaded(files[i].stats)
    ensures r.Ok? ==> |r.value| == |files| && forall i :: 0 <= i < |files| ==> |r.value[i]| == 12
  {
    if |files| == 0 then Ok([])
    else
      var rest :- AggregateRows(files[..|files| - 1], taskLabel, runId);
      var row :- AggregateFileRow(files[|files| - 1], taskLabel, runId);
      Ok(rest + [row])
  }

  /** The order of the aggregate table: flavour, then variant, then run id. */
  function AggOrder(variantColumn: string): seq<string> {
    ["flavor", variantColumn, "run_id"]
  }

  function AggKey(variantColumn: string): CsvBuffer.Record -> Key {
    CsvBuffer.RowKey(CsvBuffer.KeyPositions(AggColumns(variantColumn), AggOrder(variantColumn)))
  }

  /** `stage_aggregate` up to the written records: an empty file list is refused;
      otherwise the header and the rows ordered by (flavour, variant, run id), or
      the TypeError of that sort when two keys cannot be compared. */
  function AggregateTable(files: seq<FileInput>, taskLabel: string, variantColumn: string, runId: Option<string>)
    : Result<seq<CsvBuffer.Record>>
    requires forall i :: 0 <= i < |files| ==> Loaded(files[i].stats)
  {
    if |files| == 0 then Err(ValueError("No input files provided for aggregation."))
    else
      var rows :- AggregateRows(files, taskLabel, runId);
      if !Orderable(rows, AggKey(variantColumn)) then Err(NotOrderable)
      else Ok([CsvBuffer.Header(AggColumns(variantColumn))] + SortBy(rows, AggKey(variantColumn)))
  }

  /** Every file that went into the aggregate rows gave its own row, in place. */
  lemma {:induction false} AggregateRowsAt(files: seq<FileInput>, taskLabel: string, runId: Option<string>, i: nat)
    requires forall i :: 0 <= i < |files| ==> Loaded(files[i].stats)
    requires AggregateRows(files, taskLabel, runId).Ok? && i < |files|
    ensures AggregateFileRow(files[i], taskLabel, runId).Ok?
    ensures AggregateRows(files, taskLabel, runId).value[i] == AggregateFileRow(files[i], taskLabel, runId).value
    decreases |files|
  {
    var init := files[..|files| - 1];
    if i < |files| - 1 {
      assert init[i] == files[i];
      AggregateRowsAt(init, taskLabel, runId, i);
    }
  }

  lemma {:induction false} AggregateRowsPrefixError(files: seq<FileInput>, taskLabel: string, runId: Option<string>, j: nat)
    requires forall i :: 0 <= i < |files| ==> Loaded(files[i].stats)
    requires j <= |files| && AggregateRows(files[..j], taskLabel, runId).Err?
    ensures AggregateRows(files, taskLabel, runId) == AggregateRows(files[..j], taskLabel, runId)
    decreases |files| - j
  {
    if j < |files| {
      var init := files[..|files| - 1];
      assert init[..j] == files[..j];
      AggregateRowsPrefixError(init, taskLabel, runId, j);
    } else {
      assert files[..j] == files;
    }
  }

  lemma AggregateRowsStep(files: seq<FileInput>, taskLabel: string, runId: Option<string>, i: nat)
    requires forall i :: 0 <= i < |files| ==> Loaded(files[i].stats)
    requires i < |files|
    ensures var prev := AggregateRows(files[..i], taskLabel, runId);
      var row := AggregateFileRow(files[i], taskLabel, runId);
      AggregateRows(files[..i + 1], taskLabel, runId)
      == if prev.Err? then Err(prev.error) else if row.Err? then Err(row.error) else Ok(prev.value + [row.value])
  {
    assert files[..i + 1][..i] == files[..i];
    assert files[..i + 1][i] == files[i];
  }

  /** The list comprehension of `stage_aggregate`: one row per file, in order. */
  method CollectRows(files: seq<FileInput>, taskLabel: string, runId: Option<string>)
    returns (r: Result<seq<CsvBuffer.Record>>)
    requires forall i :: 0 <= i < |files| ==> Loaded(files[i].stats)
    ensures r == AggregateRows(files, taskLabel, runId)
  {
    var rows: seq<CsvBuffer.Record> := [];
    var i := 0;
    while i < |files|
      invariant 0 <= i <= |files|
      invariant AggregateRows(files[..i], taskLabel, runId) == Ok(rows)
    {
      AggregateRowsStep(files, taskLabel, runId, i);
      var row := AggregateFileRow(files[i], taskLabel, runId);
      if row.Err? {
        AggregateRowsPrefixError(files, taskLabel, runId, i + 1);
        return Err(row.error);
      }
      rows := rows + [row.value];
      i := i + 1;
    }
    assert files[..i] == files;
    return Ok(rows);
  }

  /** `stage_aggregate`: one row per file, then the CSV buffer takes the columns,
      the rows and the order, and hands back what it would write. */
  method StageAggregate(files: seq<FileInput>, outputPath: string, taskLabel: string, variantColumn: string,
                        runId: Option<string>)
    returns (r: Result<seq<CsvBuffer.Record>>)
    requires forall i :: 0 <= i < |files| ==> Loaded(files[i].stats)
    ensures r == AggregateTable(files, taskLabel, variantColumn, runId)
  {
    if |files| == 0 {
      return Err(ValueError("No input files provided for aggregation."));
    }
    var rows := CollectRows(files, taskLabel, runId);
    if rows.Err? {
      return Err(rows.error);
    }
    r := WriteTable(outputPath, AggColumns(variantColumn), rows.value, AggOrder(variantColumn));
  }

  /** The CSV buffer part of `stage_aggregate`: set the columns, append the rows,
      order them by the key columns and take what the writer would emit. */
  method WriteTable(outputPath: string, columns: seq<string>, rows: seq<CsvBuffer.Record>, keys: seq<string>)
    returns (r: Result<seq<CsvBuffer.Record>>)
    requires columns != [] && rows != [] && forall k :: k in keys ==> k in columns
    requires forall i :: 0 <= i < |rows| ==> |rows[i]| == |columns|
    ensures var key := CsvBuffer.RowKey(CsvBuffer.KeyPositions(columns, keys));
      r == if Orderable(rows, key) then Ok([CsvBuffer.Header(columns)] + SortBy(rows, key)) else Err(NotOrderable)
  {
    var ps := CsvBuffer.KeyPositions(columns, keys);
    assert CsvBuffer.RowsReach(rows, ps);
    var writer := new CsvBuffer.FileWriterCsv(outputPath);
    var _ := writer.SetColumns(columns);
    assert writer.columns == columns && writer.rows == [];
    assert CsvBuffer.MatchingPrefix(rows, |columns|) == |rows| by { CsvBuffer.MatchingPrefixAll(rows, |columns|); }
    var _ := writer.AppendRows(rows);
    assert writer.rows == rows by { assert rows[..|rows|] == rows; }
    var err := writer.OrderByColumns(keys);
    match err {
      case Some(e) => return Err(e);
      case None =>
    }
    assert writer.rows == SortBy(rows, CsvBuffer.RowKey(ps)) && writer.columns == columns;
    r := writer.WriteToCsv();
  }

  /** The written table is the header followed by every file's row, ordered by
      (flavour, variant, run id) and stable among equal keys; an empty input is
      refused, and once every file gave its row the sort fails exactly when two
      keys cannot be compared. */
  lemma AggregateTableSpec(files: seq<FileInput>, taskLabel: string, variantColumn: string, runId: Option<string>)
    requires forall i :: 0 <= i < |files| ==> Loaded(files[i].stats)
    ensures var r := AggregateTable(files, taskLabel, variantColumn, runId);
      (files == [] ==> r == Err(ValueError("No input files provided for aggregation.")))
      && (files != [] && AggregateRows(files, taskLabel, runId).Ok? ==>
            (r.Ok? <==> Orderable(AggregateRows(files, taskLabel, runId).value, AggKey(variantColumn)))
            && (r.Err? ==> r.error == NotOrderable))
      && (r.Ok? ==> var rows := AggregateRows(files, taskLabel, runId).value;
            |r.value| == |files| + 1 && r.value[0] == CsvBuffer.Header(AggColumns(variantColumn))
            && multiset(r.value[1..]) == multiset(rows)
            && SortedBy(r.value[1..], AggKey(variantColumn))
            && StableFor(rows, r.value[1..], AggKey(variantColumn)))
  {
    if |files| > 0 {
      var rows := AggregateRows(files, taskLabel, runId);
      if rows.Ok? {
        var key := AggKey(variantColumn);
        var sorted := SortBy(rows.value, key);
        var out := [CsvBuffer.Header(AggColumns(variantColumn))] + sorted;
        if Orderable(rows.value, key) {
          assert AggregateTable(files, taskLabel, variantColumn, runId) == Ok(out);
        assert out[1..] == sorted && out[0] == CsvBuffer.Header(AggColumns(variantColumn));
        assert SortedBy(sorted, key) by { SortByIsSorted(rows.value, key); }
        assert StableFor(rows.value, sorted, key) by { SortByStable(rows.value, key); }
        assert |sorted| == |rows.value| by { SortByLength(rows.value, key); }
          assert |rows.value| == |files|;
        }
      }
    }
  }

  /** Two files of one flavour, one whose name yields no variant (None) and one
      whose name yields a number, make the sort compare None with an int after
      equal flavours: `stage_aggregate` raises a TypeError. */
  lemma MixedVariantsRefused(files: seq<FileInput>, taskLabel: string, variantColumn: string, runId: Option<string>,
                             i: nat, j: nat)
    requires forall i :: 0 <= i < |files| ==> Loaded(files[i].stats)
    requires variantColumn != "flavor" && variantColumn != "run_id"
    requires AggregateRows(files, taskLabel, runId).Ok?
    requires i < |files| && j < |files| && files[i].variant == Ok(None)
    requires files[j].variant.Ok? && files[j].variant.value.Some?
    requires ExtractFlavor(files[i].path) == ExtractFlavor(files[j].path)
    ensures AggregateTable(files, taskLabel, variantColumn, runId) == Err(NotOrderable)
  {
    var rows := AggregateRows(files, taskLabel, runId).value;
    assert !Orderable(rows, AggKey(variantColumn)) by {
      AggregateRowsAt(files, taskLabel, runId, i);
      AggregateRowsAt(files, taskLabel, runId, j);
      AggregateFileRowHead(files[i], taskLabel, runId);
      AggregateFileRowHead(files[j], taskLabel, runId);
      MixedKeysIncomparable(variantColumn, rows[i], rows[j]);
    }
    AggregateTableSpec(files, taskLabel, variantColumn, runId);
  }

  /** A file's aggregate row begins with its variant, its flavour and the run id. */
  lemma AggregateFileRowHead(f: FileInput, taskLabel: string, runId: Option<string>)
    requires Loaded(f.stats)
    ensures var r := AggregateFileRow(f, taskLabel, runId);
      r.Ok? ==> ExtractFlavor(f.path).Ok? && f.variant.Ok? && r.value[0] == VariantCell(f.variant.value)
                && r.value[1] == Str(ExtractFlavor(f.path).value) && r.value[2] == RunIdCell(runId)
  {
    RowOfSpec(f.path, f.variant, runId, FileMetrics(f, taskLabel));
  }

  /** Rows of one flavour, one without a variant and one with a number for it,
      have keys Python cannot compare. */
  lemma MixedKeysIncomparable(variantColumn: string, a: CsvBuffer.Record, b: CsvBuffer.Record)
    requires variantColumn != "flavor" && variantColumn != "run_id" && |a| == 12 && |b| == 12
    requires a[1] == b[1] && a[0] == Null && b[0].Num?
    ensures !KeyComparable(AggKey(variantColumn)(a), AggKey(variantColumn)(b))
  {
    AggKeyOfRow(variantColumn, a);
    AggKeyOfRow(variantColumn, b);
    var ka := AggKey(variantColumn)(a);
    var kb := AggKey(variantColumn)(b);
    assert ka[1..][0] == Null && kb[1..][0] == b[0];
  }

  /** The aggregate key of a row: its flavour, its variant and its run id. */
  lemma AggKeyOfRow(variantColumn: string, row: CsvBuffer.Record)
    requires variantColumn != "flavor" && variantColumn != "run_id" && |row| == 12
    ensures AggKey(variantColumn)(row) == [row[1], row[0], row[2]]
  {
    var cols := AggColumns(variantColumn);
    var ps := CsvBuffer.KeyPositions(cols, AggOrder(variantColumn));
    assert ps[0] == 1 by {
      assert cols[0] != "flavor" && cols[1..][0] == "flavor";
    }
    assert ps[1] == 0;
    assert ps[2] == 2 by {
      assert cols[0] != "run_id" && cols[1..][0] != "run_id" && cols[1..][1..][0] == "run_id";
    }
    var k := CsvBuffer.RowKey(ps)(row);
    assert |k| == 3 && k[0] == row[1] && k[1] == row[0] && k[2] == row[2];
  }
}
