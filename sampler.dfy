/** `SystemStatsCollector`: the readings taken for the monitored process at each
    tick (process CPU share, memory in GiB, CPU package temperature), the sample
    row that is committed only when every required reading succeeded, and the
    list of measured value names in which the per-core placeholder is replaced by
    one column per core. psutil, the clock and the energy counter are not called:
    what they return (or None when the process has gone or the read failed)
    comes in as a value. */
module Sampler {
  import opened Wrappers
  import opened Text
  import opened Ordering
  import FileStats

  // ---------------------------------------------------------------------------
  // Readings

  /** `get_cpu_usage`: the process CPU percentage spread over the logical CPUs;
      None when the process no longer exists. */
  function CpuUsage(percent: Option<real>, cpuCount: nat): (r: Option<real>)
    requires cpuCount > 0
    ensures r.Some? <==> percent.Some?
    ensures r.Some? ==> r.value * cpuCount as real == percent.value
  {
    if percent.None? then None else Some(percent.value / cpuCount as real)
  }

  /** A process percentage within what all CPUs can give is a share of at most 100. */
  lemma CpuUsageBounded(percent: real, cpuCount: nat)
    requires cpuCount > 0 && 0.0 <= percent <= 100.0 * cpuCount as real
    ensures var r := CpuUsage(Some(percent), cpuCount).value; 0.0 <= r <= 100.0
  {
  }

  const BytesPerGiB: nat := 1024 * 1024 * 1024

  /** What `memory_full_info` reports, in bytes. */
  datatype MemoryInfo = MemoryInfo(vms: nat, rss: nat, swap: nat)

  /** `get_memory_usage`: virtual memory, resident memory and swap in GiB; None
      when the process no longer exists. */
  function MemoryUsage(info: Option<MemoryInfo>): (r: Option<(real, real, real)>)
    ensures r.Some? <==> info.Some?
    ensures r.Some? ==>
      && r.value.0 * BytesPerGiB as real == info.value.vms as real
      && r.value.1 * BytesPerGiB as real == info.value.rss as real
      && r.value.2 * BytesPerGiB as real == info.value.swap as real
  {
    match info
    case None => None
    case Some(m) =>
      Some((m.vms as real / BytesPerGiB as real, m.rss as real / BytesPerGiB as real,
            m.swap as real / BytesPerGiB as real))
  }

  /** One entry of a sensor group: its label (possibly empty) and its reading in
      degrees Celsius. */
  datatype TempEntry = TempEntry(sensorLabel: string, current: real)

  const CoreTempGroup: string := "coretemp"
  const PackagePrefix: string := "package id 0"

  /** An entry with a non-empty label that, lower-cased, starts with "package id 0". */
  predicate IsPackage(e: TempEntry) {
    e.sensorLabel != "" && StartsWith(Lower(e.sensorLabel), PackagePrefix)
  }

  /** `next(...)` over the entries: the reading of the first package entry. */
  function FirstPackage(entries: seq<TempEntry>): (r: Option<real>)
  {
    if |entries| == 0 then None
    else if IsPackage(entries[0]) then Some(entries[0].current)
    else FirstPackage(entries[1..])
  }

  /** The first package entry's reading, or None when no entry is one. */
  lemma {:induction false} FirstPackageSpec(entries: seq<TempEntry>)
    ensures FirstPackage(entries).None? <==> forall j :: 0 <= j < |entries| ==> !IsPackage(entries[j])
    ensures FirstPackage(entries).Some? ==>
      exists i :: 0 <= i < |entries| && IsPackage(entries[i])
        && FirstPackage(entries) == Some(entries[i].current)
        && forall j :: 0 <= j < i ==> !IsPackage(entries[j])
  {
    if |entries| > 0 && !IsPackage(entries[0]) {
      var rest := entries[1..];
      FirstPackageSpec(rest);
      if FirstPackage(rest).Some? {
        var i :| 0 <= i < |rest| && IsPackage(rest[i]) && FirstPackage(rest) == Some(rest[i].current)
          && forall j :: 0 <= j < i ==> !IsPackage(rest[j]);
        assert entries[i + 1] == rest[i];
        forall j | 0 <= j < i + 1 ensures !IsPackage(entries[j]) {
          if j > 0 {
            assert entries[j] == rest[j - 1];
          }
        }
      } else {
        forall j | 0 <= j < |entries| ensures !IsPackage(entries[j]) {
          if j > 0 {
            assert entries[j] == rest[j - 1];
          }
        }
      }
    }
  }

  /** `get_cpu_temperature`: None when the sensors cannot be read, when there is
      no "coretemp" group or it is empty, and when no entry is the package;
      otherwise the first package entry's reading. */
  function CpuTemperature(temps: Option<map<string, seq<TempEntry>>>): (r: Option<real>)
    ensures temps.None? ==> r.None?
    ensures temps.Some? && (CoreTempGroup !in temps.value || temps.value[CoreTempGroup] == []) ==> r.None?
    ensures temps.Some? && CoreTempGroup in temps.value ==> r == FirstPackage(temps.value[CoreTempGroup])
  {
    match temps
    case None => None
    case Some(groups) =>
      if CoreTempGroup !in groups || groups[CoreTempGroup] == [] then None
      else FirstPackage(groups[CoreTempGroup])
  }

  // ---------------------------------------------------------------------------
  // The sample row

  /** The readings of one tick; `None` marks a reading that failed. The clock
      always answers; the temperature is optional in the committed row. */
  datatype TickReadings = TickReadings(
    timestamp: real, cpu: Option<real>, perCore: Option<seq<real>>, temperature: Option<real>,
    memory: Option<(real, real, real)>, energy: Option<real>)

  /** A committed sample, field by field. */
  datatype SampleRow = SampleRow(
    timestamp: real, cpu: real, perCore: seq<real>, vms: real, ram: real, swap: real,
    energy: real, temperature: Option<real>)

  function Nums(xs: seq<real>): (cs: seq<Cell>)
    ensures |cs| == |xs| && forall k :: 0 <= k < |xs| ==> cs[k] == Num(xs[k])
  {
    seq(|xs|, k requires 0 <= k < |xs| => Num(xs[k]))
  }

  /** `collect_stats`: the row `[timestamp, cpu] + per-core + [vms, rss, swap] +
      [energy, temperature]`, or None as soon as one required reading failed. */
  function CollectStats(t: TickReadings): (row: Option<seq<Cell>>)
    ensures row.Some? <==> t.cpu.Some? && t.perCore.Some? && t.memory.Some? && t.energy.Some?
    ensures row.Some? ==> |row.value| == |t.perCore.value| + 7
  {
    if t.cpu.Some? && t.perCore.Some? && t.memory.Some? && t.energy.Some? then
      var (vms, ram, swap) := t.memory.value;
      Some([Num(t.timestamp), Num(t.cpu.value)] + Nums(t.perCore.value) + [Num(vms), Num(ram), Num(swap)]
           + [Num(t.energy.value), OptCell(t.temperature)])
    else None
  }

  /** Reading a row of `n` cores back into its fields. */
  function RowFields(row: seq<Cell>, n: nat): (s: Option<SampleRow>)
  {
    if |row| != n + 7 || (exists k :: 0 <= k < n + 6 && !row[k].Num?) || row[n + 6].Str? then None
    else
      Some(SampleRow(row[0].x, row[1].x, seq(n, k requires 0 <= k < n && k + 2 < |row| && row[k + 2].Num? => row[k + 2].x),
                     row[n + 2].x, row[n + 3].x, row[n + 4].x, row[n + 5].x,
                     if row[n + 6].Num? then Some(row[n + 6].x) else None))
  }

  /** A committed row holds exactly the readings of its tick, each in its place. */
  lemma CollectStatsLayout(t: TickReadings)
    requires CollectStats(t).Some?
    ensures RowFields(CollectStats(t).value, |t.perCore.value|)
      == Some(SampleRow(t.timestamp, t.cpu.value, t.perCore.value, t.memory.value.0, t.memory.value.1,
                        t.memory.value.2, t.energy.value, t.temperature))
  {
    var row := CollectStats(t).value;
    var n := |t.perCore.value|;
    var (vms, ram, swap) := t.memory.value;
    assert row == [Num(t.timestamp), Num(t.cpu.value)] + Nums(t.perCore.value) + [Num(vms), Num(ram), Num(swap)]
      + [Num(t.energy.value), OptCell(t.temperature)];
    assert forall k :: 0 <= k < n ==> row[k + 2] == Num(t.perCore.value[k]);
    assert row[n + 2] == Num(vms) && row[n + 3] == Num(ram) && row[n + 4] == Num(swap);
    assert row[n + 5] == Num(t.energy.value) && row[n + 6] == OptCell(t.temperature);
    assert forall k :: 0 <= k < n + 6 ==> row[k].Num?;
    var cores := seq(n, k requires 0 <= k < n && k + 2 < |row| && row[k + 2].Num? => row[k + 2].x);
    assert cores == t.perCore.value;
  }

  // ---------------------------------------------------------------------------
  // The measured value names

  /** The module-level list of measured value names, which
      `get_values_to_measure` rewrites in place. `keyword` is the placeholder
      entry that stands for the per-core columns. */
  class ValuesToMeasure {
    const keyword: string
    var values: seq<string>

    constructor (keyword: string, values: seq<string>)
      ensures this.keyword == keyword && this.values == values
    {
      this.keyword := keyword;
      this.values := values;
    }

    /** `get_values_to_measure`: the first placeholder entry is replaced, in the
        shared list itself, by the usage columns of cores 0 .. cpuCount-1, and the
        list is returned; `list.index` raises ValueError when the placeholder is
        absent, and the list is then left as it was. */
    method GetValuesToMeasure(cpuCount: nat) returns (r: Result<seq<string>>)
      modifies this
      ensures keyword !in old(values) ==> r.Err? && r.error.ValueError? && values == old(values)
      ensures keyword in old(values) ==>
        && r == Ok(values)
        && values == Splice(old(values), FirstIndex(old(values), keyword), FileStats.CoreColumns(cpuCount))
    {
      var cores := FileStats.CoreColumns(cpuCount);
      var idx := FindIndex(values, keyword);
      if idx.None? {
        return Err(ValueError("'" + keyword + "' is not in list"));
      }
      values := values[..idx.value] + cores + values[idx.value + 1..];
      return Ok(values);
    }
  }

  /** The position of the first `x` in `xs`. */
  function FirstIndex(xs: seq<string>, x: string): (i: nat)
    requires x in xs
    ensures i < |xs| && xs[i] == x && x !in xs[..i]
  {
    if xs[0] == x then 0
    else
      var i := 1 + FirstIndex(xs[1..], x);
      assert xs[..i] == [xs[0]] + xs[1..][..i - 1];
      i
  }

  /** `list.index`: the first position of `x`, None where Python raises. */
  method FindIndex(xs: seq<string>, x: string) returns (idx: Option<nat>)
    ensures idx.None? <==> x !in xs
    ensures idx.Some? ==> idx.value == FirstIndex(xs, x)
  {
    var i := 0;
    while i < |xs|
      invariant i <= |xs| && x !in xs[..i]
    {
      if xs[i] == x {
        FirstIndexUnique(xs, x, i);
        return Some(i);
      }
      assert xs[..i + 1] == xs[..i] + [xs[i]];
      i := i + 1;
    }
    assert xs[..i] == xs;
    return None;
  }

  lemma FirstIndexUnique(xs: seq<string>, x: string, i: nat)
    requires i < |xs| && xs[i] == x && x !in xs[..i]
    ensures FirstIndex(xs, x) == i
  {
    var j := FirstIndex(xs, x);
    PrefixMember(xs, i, j);
    PrefixMember(xs, j, i);
  }

  lemma PrefixMember(xs: seq<string>, a: nat, b: nat)
    ensures a < b <= |xs| ==> xs[a] in xs[..b]
  {
    if a < b <= |xs| {
      assert xs[..b][a] == xs[a];
    }
  }

  /** The slice assignment `xs[i:i+1] = ys`. */
  function Splice(xs: seq<string>, i: nat, ys: seq<string>): (r: seq<string>)
    requires i < |xs|
    ensures |r| == |xs| - 1 + |ys|
    ensures r[..i] == xs[..i] && r[i..i + |ys|] == ys && r[i + |ys|..] == xs[i + 1..]
  {
    xs[..i] + ys + xs[i + 1..]
  }

  /** A placeholder that occurs once and is not a core column name is gone after
      the splice, so a second `get_values_to_measure` raises ValueError. */
  lemma SpliceRemovesKeyword(xs: seq<string>, keyword: string, n: nat)
    requires keyword in xs && !FileStats.IsCoreName(keyword)
    requires forall j :: 0 <= j < |xs| && xs[j] == keyword ==> j == FirstIndex(xs, keyword)
    ensures keyword !in Splice(xs, FirstIndex(xs, keyword), FileStats.CoreColumns(n))
  {
    var i := FirstIndex(xs, keyword);
    var cores := FileStats.CoreColumns(n);
    var r := Splice(xs, i, cores);
    forall k | 0 <= k < |r| ensures r[k] != keyword {
      if k < i {
        assert r[k] == xs[..i][k];
      } else if k < i + n {
        assert r[k] == cores[k - i];
      } else {
        assert r[k] == xs[i + 1..][k - i - n] == xs[k - n + 1];
      }
    }
  }
}
