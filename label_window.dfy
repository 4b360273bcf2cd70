/** The label-bounded queries that both versions of `FileStats` share: the rows
    between a start label and a finish label, the task durations read from pairs of
    labels, and the mean, minimum and maximum of a column over that window. The
    table is a value; reading it from CSV is not modelled. */
module LabelWindow {
  import opened Wrappers
  import opened Text

  /** One row of a cleaned stats file: its uptime, its label (None where the CSV
      cell is empty), the process metrics and the per-core usage columns by name. */
  datatype Sample = Sample(uptime: real, tag: Option<string>, cpu: real, vms: real, ram: real, swap: real,
                           cores: map<string, real>)

  /** `_find_label_indices(label)[0]`: the first row carrying the label. */
  function FirstLabelled(rows: seq<Sample>, name: string): (r: Option<nat>)
    ensures r.None? <==> forall i :: 0 <= i < |rows| ==> rows[i].tag != Some(name)
    ensures r.Some? ==> r.value < |rows| && rows[r.value].tag == Some(name)
                        && forall i :: 0 <= i < r.value ==> rows[i].tag != Some(name)
  {
    if |rows| == 0 then None
    else if rows[0].tag == Some(name) then Some(0)
    else
      assert forall i :: 1 <= i < |rows| ==> rows[i] == rows[1..][i - 1];
      match FirstLabelled(rows[1..], name)
      case None => None
      case Some(i) => Some(i + 1)
  }

  /** `_get_df_between_labels`: None when either label is missing; otherwise the
      rows from the first start row through the first finish row, both included,
      and no rows when the finish comes first. */
  function Window(rows: seq<Sample>, start: string, finish: string): (w: Option<seq<Sample>>)
    ensures w.None? <==> FirstLabelled(rows, start).None? || FirstLabelled(rows, finish).None?
    ensures w.Some? ==>
      var s := FirstLabelled(rows, start).value;
      var f := FirstLabelled(rows, finish).value;
      (f < s <==> w.value == [])
      && (s <= f ==> |w.value| == f - s + 1
                     && w.value[0].tag == Some(start) && w.value[|w.value| - 1].tag == Some(finish)
                     && (forall i :: 0 <= i < |w.value| - 1 ==> w.value[i].tag != Some(finish))
                     && (forall i :: 0 <= i < |w.value| ==> w.value[i] == rows[s + i]))
  {
    var fs := FirstLabelled(rows, start);
    var ff := FirstLabelled(rows, finish);
    if fs.None? || ff.None? then None
    else if fs.value <= ff.value then
      SliceBetween(rows, fs.value, ff.value, start, finish);
      Some(rows[fs.value..ff.value + 1])
    else Some([])
  }

  /** The rows from a start row through the first finish row after it. */
  lemma SliceBetween(rows: seq<Sample>, s: nat, f: nat, start: string, finish: string)
    requires s <= f < |rows| && rows[s].tag == Some(start) && rows[f].tag == Some(finish)
    requires forall i :: 0 <= i < f ==> rows[i].tag != Some(finish)
    ensures var w := rows[s..f + 1];
      |w| == f - s + 1 && w != []
      && w[0].tag == Some(start) && w[|w| - 1].tag == Some(finish)
      && (forall i :: 0 <= i < |w| - 1 ==> w[i].tag != Some(finish))
      && (forall i :: 0 <= i < |w| ==> w[i] == rows[s + i])
  {
    var w := rows[s..f + 1];
    assert forall i :: 0 <= i < |w| ==> w[i] == rows[s + i];
  }

  /** A label-to-uptime dictionary, in insertion order. */
  type Times = seq<(string, real)>

  predicate DistinctKeys(d: Times) {
    forall i, j :: 0 <= i < j < |d| ==> d[i].0 != d[j].0
  }

  function Lookup(d: Times, k: string): (r: Option<real>)
    ensures r.None? <==> forall i :: 0 <= i < |d| ==> d[i].0 != k
    ensures r.Some? ==> exists i :: 0 <= i < |d| && d[i] == (k, r.value)
  {
    if |d| == 0 then None
    else if d[0].0 == k then Some(d[0].1)
    else
      assert forall i :: 1 <= i < |d| ==> d[i] == d[1..][i - 1];
      Lookup(d[1..], k)
  }

  /** `d[k] = v` on a dictionary: a known key keeps its place and takes the new
      value, a new key goes to the end. */
  function Put(d: Times, k: string, v: real): (r: Times)
    ensures DistinctKeys(d) ==> DistinctKeys(r)
    ensures Lookup(r, k) == Some(v)
    ensures forall k' :: k' != k ==> Lookup(r, k') == Lookup(d, k')
  {
    if |d| == 0 then [(k, v)]
    else if d[0].0 == k then [(k, v)] + d[1..]
    else
      var r := [d[0]] + Put(d[1..], k, v);
      assert r[1..] == Put(d[1..], k, v);
      assert DistinctKeys(d) ==> DistinctKeys(r) by {
        if DistinctKeys(d) {
          assert DistinctKeys(d[1..]);
          assert Lookup(d[1..], d[0].0).None?;
          forall k' | k' != k ensures Lookup(r[1..], k') == Lookup(d[1..], k') { }
          assert Lookup(r[1..], d[0].0).None?;
        }
      }
      r
  }

  /** The last row carrying the label. */
  function LastLabelled(rows: seq<Sample>, name: string): (r: Option<nat>)
    ensures r.None? <==> forall i :: 0 <= i < |rows| ==> rows[i].tag != Some(name)
    ensures r.Some? ==> r.value < |rows| && rows[r.value].tag == Some(name)
                        && forall i :: r.value < i < |rows| ==> rows[i].tag != Some(name)
  {
    if |rows| == 0 then None
    else if rows[|rows| - 1].tag == Some(name) then Some(|rows| - 1)
    else LastLabelled(rows[..|rows| - 1], name)
  }

  /** The labelled rows' label-to-uptime dictionary (rows without a label dropped;
      a repeated label keeps its first place and its last uptime). */
  function LabelTimes(rows: seq<Sample>): (d: Times)
    ensures DistinctKeys(d)
  {
    if |rows| == 0 then []
    else
      var d := LabelTimes(rows[..|rows| - 1]);
      var last := rows[|rows| - 1];
      if last.tag.Some? then Put(d, last.tag.value, last.uptime) else d
  }

  /** A label's entry is the uptime of the last row carrying it, and only labels
      that occur have one. */
  lemma {:induction false} LabelTimesLookup(rows: seq<Sample>, name: string)
    ensures Lookup(LabelTimes(rows), name)
         == match LastLabelled(rows, name) case None => None case Some(i) => Some(rows[i].uptime)
  {
    if |rows| > 0 {
      var init := rows[..|rows| - 1];
      LabelTimesLookup(init, name);
      assert forall i :: 0 <= i < |init| ==> init[i] == rows[i];
    }
  }

  /** The task durations computed from the entries `entries` of the dictionary `d`. */
  function TaskTimes(entries: Times, d: Times, start: string, finish: string): Times {
    if |entries| == 0 then []
    else TaskEntry(entries[0].0, entries[0].1, d, start, finish) + TaskTimes(entries[1..], d, start, finish)
  }

  /** The entry a label `start + T` with uptime v contributes: T with the finish
      uptime minus v, when `finish + T` is in d. */
  function TaskEntry(k: string, v: real, d: Times, start: string, finish: string): Times {
    if StartsWith(k, start) && Lookup(d, finish + k[|start|..]).Some?
    then [(k[|start|..], Lookup(d, finish + k[|start|..]).value - v)]
    else []
  }

  /** `get_times`: for every label `start + T` whose partner `finish + T` exists,
      the task T with the difference of their uptimes, in dictionary order. */
  function GetTimes(rows: seq<Sample>, start: string, finish: string): Times {
    TaskTimes(LabelTimes(rows), LabelTimes(rows), start, finish)
  }

  /** The difference of two uptimes when both exist. */
  function Span(a: Option<real>, b: Option<real>): Option<real> {
    if a.Some? && b.Some? then Some(b.value - a.value) else None
  }

  /** A task's duration in the task table is the span between its start entry and
      its finish entry. */
  lemma {:induction false} TaskTimesLookup(entries: Times, d: Times, start: string, finish: string, task: string)
    requires DistinctKeys(entries)
    ensures Lookup(TaskTimes(entries, d, start, finish), task) == Span(Lookup(entries, start + task), Lookup(d, finish + task))
  {
    if |entries| > 0 {
      assert DistinctKeys(entries[1..]);
      TaskTimesLookup(entries[1..], d, start, finish, task);
      TaskTimesLookupStep(entries, d, start, finish, task);
    }
  }

  lemma TaskTimesLookupStep(entries: Times, d: Times, start: string, finish: string, task: string)
    requires |entries| > 0 && DistinctKeys(entries)
    requires Lookup(TaskTimes(entries[1..], d, start, finish), task) == Span(Lookup(entries[1..], start + task), Lookup(d, finish + task))
    ensures Lookup(TaskTimes(entries, d, start, finish), task) == Span(Lookup(entries, start + task), Lookup(d, finish + task))
  {
    var k := entries[0].0;
    var rest := TaskTimes(entries[1..], d, start, finish);
    if k == start + task {
      assert Lookup(entries[1..], k).None?;
      TaskEntryOwn(k, entries[0].1, d, start, finish, task, rest);
    } else {
      TaskEntryOther(k, entries[0].1, d, start, finish, task, rest);
    }
  }

  /** The entry of `start + T` is the one T is looked up by. */
  lemma TaskEntryOwn(k: string, v: real, d: Times, start: string, finish: string, task: string, rest: Times)
    requires k == start + task && Lookup(rest, task).None?
    ensures Lookup(TaskEntry(k, v, d, start, finish) + rest, task) == Span(Some(v), Lookup(d, finish + task))
  {
    assert k[|start|..] == task;
    var t := TaskEntry(k, v, d, start, finish);
    if t != [] {
      LookupCons(t[0], rest, task);
    } else {
      assert t + rest == rest;
    }
  }

  /** Any other label's entry is not the one T is looked up by. */
  lemma TaskEntryOther(k: string, v: real, d: Times, start: string, finish: string, task: string, rest: Times)
    requires k != start + task
    ensures Lookup(TaskEntry(k, v, d, start, finish) + rest, task) == Lookup(rest, task)
  {
    var t := TaskEntry(k, v, d, start, finish);
    if t != [] {
      assert k == start + k[|start|..];
      LookupCons(t[0], rest, task);
      assert t == [t[0]];
    } else {
      assert t + rest == rest;
    }
  }

  lemma LookupCons(e: (string, real), rest: Times, key: string)
    ensures Lookup([e] + rest, key) == if e.0 == key then Some(e.1) else Lookup(rest, key)
  {
    assert ([e] + rest)[1..] == rest;
  }

  /** A task has a duration exactly when both its labels occur; the duration is the
      finish uptime minus the start uptime, each taken from the last row with that label. */
  lemma GetTimesSpec(rows: seq<Sample>, start: string, finish: string, task: string)
    ensures Lookup(GetTimes(rows, start, finish), task).Some?
            <==> LastLabelled(rows, start + task).Some? && LastLabelled(rows, finish + task).Some?
    ensures Lookup(GetTimes(rows, start, finish), task).Some?
            ==> Lookup(GetTimes(rows, start, finish), task).value
                == rows[LastLabelled(rows, finish + task).value].uptime - rows[LastLabelled(rows, start + task).value].uptime
  {
    var d := LabelTimes(rows);
    var g := TaskTimes(d, d, start, finish);
    var a := LastLabelled(rows, start + task);
    var b := LastLabelled(rows, finish + task);
    assert GetTimes(rows, start, finish) == g;
    assert Lookup(g, task) == Span(Lookup(d, start + task), Lookup(d, finish + task)) by {
      TaskTimesLookup(d, d, start, finish, task);
    }
    assert Lookup(d, start + task) == match a case None => None case Some(i) => Some(rows[i].uptime) by {
      LabelTimesLookup(rows, start + task);
    }
    assert Lookup(d, finish + task) == match b case None => None case Some(i) => Some(rows[i].uptime) by {
      LabelTimesLookup(rows, finish + task);
    }
  }

  function Sum(xs: seq<real>): real {
    if |xs| == 0 then 0.0 else Sum(xs[..|xs| - 1]) + xs[|xs| - 1]
  }

  /** A column mean; None stands for the NaN of an empty column. */
  function Mean(xs: seq<real>): (m: Option<real>)
    ensures m.Some? <==> |xs| > 0
    ensures m.Some? ==> m.value == Sum(xs) / |xs| as real
  {
    if |xs| == 0 then None else Some(Sum(xs) / |xs| as real)
  }

  function Min(xs: seq<real>): (m: Option<real>)
    ensures m.Some? <==> |xs| > 0
    ensures m.Some? ==> m.value in xs && forall i :: 0 <= i < |xs| ==> m.value <= xs[i]
  {
    if |xs| == 0 then None
    else
      var m := Min(xs[..|xs| - 1]);
      if m.Some? && m.value <= xs[|xs| - 1] then m else Some(xs[|xs| - 1])
  }

  function Max(xs: seq<real>): (m: Option<real>)
    ensures m.Some? <==> |xs| > 0
    ensures m.Some? ==> m.value in xs && forall i :: 0 <= i < |xs| ==> xs[i] <= m.value
  {
    if |xs| == 0 then None
    else
      var m := Max(xs[..|xs| - 1]);
      if m.Some? && m.value >= xs[|xs| - 1] then m else Some(xs[|xs| - 1])
  }

  lemma {:induction false} SumBounds(xs: seq<real>, lo: real, hi: real)
    requires forall i :: 0 <= i < |xs| ==> lo <= xs[i] <= hi
    ensures lo * |xs| as real <= Sum(xs) <= hi * |xs| as real
  {
    if |xs| > 0 {
      SumBounds(xs[..|xs| - 1], lo, hi);
    }
  }

  /** On a non-empty column the mean lies between the minimum and the maximum. */
  lemma MinMeanMax(xs: seq<real>)
    requires |xs| > 0
    ensures Min(xs).value <= Mean(xs).value <= Max(xs).value
  {
    MeanWithin(xs, Min(xs).value, Max(xs).value);
  }

  lemma MeanWithin(xs: seq<real>, lo: real, hi: real)
    requires |xs| > 0 && forall i :: 0 <= i < |xs| ==> lo <= xs[i] <= hi
    ensures lo <= Sum(xs) / |xs| as real <= hi
  {
    SumBounds(xs, lo, hi);
    DivideBounds(Sum(xs), |xs| as real, lo, hi);
  }

  lemma DivideBounds(total: real, n: real, lo: real, hi: real)
    requires n > 0.0 && lo * n <= total <= hi * n
    ensures lo <= total / n <= hi
  {
    assert total / n * n == total;
    assert (total / n - lo) * n >= 0.0;
    assert (hi - total / n) * n >= 0.0;
  }

  datatype Metric = CpuUsage | VirtualMemory | Ram | SwapMemory

  function Column(w: seq<Sample>, m: Metric): (c: seq<real>)
    ensures |c| == |w|
  {
    seq(|w|, i requires 0 <= i < |w| =>
      match m case CpuUsage => w[i].cpu case VirtualMemory => w[i].vms case Ram => w[i].ram case SwapMemory => w[i].swap)
  }

  datatype Averages = Averages(cpu: Option<real>, vms: Option<real>, ram: Option<real>, swap: Option<real>)

  datatype MinMax = MinMax(minVms: Option<real>, maxVms: Option<real>, minRam: Option<real>, maxRam: Option<real>,
                           minSwap: Option<real>, maxSwap: Option<real>)

  /** What subscripting the None window raises. */
  const NoWindow: Error := TypeError("'NoneType' object is not subscriptable")

  /** `get_average_between_labels`: the four column means over the window. A missing
      label gives a None window, which the code then subscripts. */
  function AverageBetweenLabels(rows: seq<Sample>, start: string, finish: string): (r: Result<Averages>)
    ensures r.Err? <==> Window(rows, start, finish).None?
    ensures r.Err? ==> r.error == NoWindow
    ensures r.Ok? ==> var w := Window(rows, start, finish).value;
      r.value == Averages(Mean(Column(w, CpuUsage)), Mean(Column(w, VirtualMemory)), Mean(Column(w, Ram)), Mean(Column(w, SwapMemory)))
  {
    match Window(rows, start, finish)
    case None => Err(NoWindow)
    case Some(w) => Ok(Averages(Mean(Column(w, CpuUsage)), Mean(Column(w, VirtualMemory)), Mean(Column(w, Ram)), Mean(Column(w, SwapMemory))))
  }

  /** `get_min_max_memory_stats`: the minimum and maximum of the three memory columns over the window. */
  function MinMaxMemoryStats(rows: seq<Sample>, start: string, finish: string): (r: Result<MinMax>)
    ensures r.Err? <==> Window(rows, start, finish).None?
    ensures r.Err? ==> r.error == NoWindow
  {
    match Window(rows, start, finish)
    case None => Err(NoWindow)
    case Some(w) =>
      Ok(MinMax(Min(Column(w, VirtualMemory)), Max(Column(w, VirtualMemory)), Min(Column(w, Ram)), Max(Column(w, Ram)),
                Min(Column(w, SwapMemory)), Max(Column(w, SwapMemory))))
  }

  /** Over a non-empty window every memory average lies between that column's
      minimum and maximum, and all seven values are numbers. */
  lemma AveragesWithinMinMax(rows: seq<Sample>, start: string, finish: string)
    requires Window(rows, start, finish).Some? && Window(rows, start, finish).value != []
    ensures var a := AverageBetweenLabels(rows, start, finish).value;
      var m := MinMaxMemoryStats(rows, start, finish).value;
      a.cpu.Some?
      && m.minVms.value <= a.vms.value <= m.maxVms.value
      && m.minRam.value <= a.ram.value <= m.maxRam.value
      && m.minSwap.value <= a.swap.value <= m.maxSwap.value
  {
    var w := Window(rows, start, finish).value;
    MinMeanMax(Column(w, VirtualMemory));
    MinMeanMax(Column(w, Ram));
    MinMeanMax(Column(w, SwapMemory));
  }
}
