/** The result processor of the pandas experiments: the stats columns of a result
    file with one column per measured task spliced in, the row of statistics a
    file yields under those columns, the normalisation of each statistic by the
    best value of its record-count group, and the grouping of the result files of
    a folder by scenario. */
module PandasResults {
  import opened Wrappers
  import opened Text
  import opened Ordering
  import opened LabelWindow
  import opened FileStats
  import CsvBuffer

  // ---------------------------------------------------------------------------
  // Stats columns

  const LabelStartPrefix: string := "start_"
  const LabelFinishPrefix: string := "finish_"
  const LabelProcessing: string := "processing"
  const LabelStartProcessing: string := LabelStartPrefix + LabelProcessing
  const LabelFinishProcessing: string := LabelFinishPrefix + LabelProcessing

  /** The placeholder the task time columns replace. */
  const StatsTimesId: string := "time_tags"

  const StatsColumns: seq<string> :=
    ["test_name", "num_records", StatsTimesId, "avg_cpu_usage", "avg_vm", "avg_ram", "avg_swap",
     "min_vm", "max_vm", "min_ram", "max_ram", "min_swap", "max_swap", "dominant_core_changes",
     "core_changes_by_time", "time_with_dominant_core", "time_not_dominant_core", "cores_disparity_avg",
     "energy_consumption"]

  /** `STATS_COLUMNS.index(STATS_TIMES_ID)`. */
  const StatsTimesIdIdx: nat := CsvBuffer.IndexOf(StatsColumns, StatsTimesId)

  /** The placeholder is the third column, and the only one of that name. */
  lemma StatsTimesIdAt()
    ensures StatsTimesIdIdx == 2 && |StatsColumns| == 19
    ensures forall j :: 0 <= j < |StatsColumns| && StatsColumns[j] == StatsTimesId ==> j == StatsTimesIdIdx
  {
    assert StatsColumns[2] == StatsTimesId;
  }

  /** The column of a task's duration. */
  function TimeColumn(tag: string): string {
    "time_" + tag
  }

  /** `_get_stats_columns`: a copy of the stats columns with the placeholder
      popped and the task time columns inserted where it stood. */
  function GetStatsColumns(timeTags: seq<string>): (cols: seq<string>)
    ensures |cols| == |StatsColumns| - 1 + |timeTags|
    ensures cols[..StatsTimesIdIdx] == StatsColumns[..StatsTimesIdIdx]
    ensures forall i :: 0 <= i < |timeTags| ==> cols[StatsTimesIdIdx + i] == TimeColumn(timeTags[i])
    ensures cols[StatsTimesIdIdx + |timeTags|..] == StatsColumns[StatsTimesIdIdx + 1..]
  {
    var times := seq(|timeTags|, i requires 0 <= i < |timeTags| => TimeColumn(timeTags[i]));
    var popped := StatsColumns[..StatsTimesIdIdx] + StatsColumns[StatsTimesIdIdx + 1..];
    assert popped[..StatsTimesIdIdx] == StatsColumns[..StatsTimesIdIdx];
    assert popped[StatsTimesIdIdx..] == StatsColumns[StatsTimesIdIdx + 1..];
    popped[..StatsTimesIdIdx] + times + popped[StatsTimesIdIdx..]
  }

  /** Putting the placeholder back in place of the task columns gives the stats
      columns again: the splice changes nothing else. */
  lemma {:induction false} StatsColumnsRestore(timeTags: seq<string>)
    ensures var cols := GetStatsColumns(timeTags);
      cols[..StatsTimesIdIdx] + [StatsTimesId] + cols[StatsTimesIdIdx + |timeTags|..] == StatsColumns
  {
    var cols := GetStatsColumns(timeTags);
    StatsTimesIdAt();
    assert StatsColumns == StatsColumns[..2] + [StatsTimesId] + StatsColumns[3..];
  }

  // ---------------------------------------------------------------------------
  // The statistics of one file

  /** The durations of the measured tasks, as cells in the same order. */
  function TaskDurations(t: Times): (vs: seq<Cell>)
    ensures |vs| == |t| && forall i :: 0 <= i < |t| ==> vs[i] == Num(t[i].1)
  {
    seq(|t|, i requires 0 <= i < |t| => Num(t[i].1))
  }

  /** The derived and tracked statistics of a file: dominant-core changes, changes
      per second of processing, time with and without a dominant core, average
      disparity and the estimated energy (average cpu usage times processing time). */
  function Derived(tracked: (nat, real, real), cpu: Option<real>, processing: real): (d: seq<Cell>)
    requires processing != 0.0
    ensures |d| == 6
  {
    [Num(tracked.0 as real), Num(tracked.0 as real / processing), Num(tracked.1), Num(processing - tracked.1),
     Num(tracked.2), if cpu.Some? then Num(cpu.value * processing) else Null]
  }

  /** The row of statistics of a file, in the order of the stats columns. */
  function StatsRow(testName: string, numRecords: nat, uptimes: Times, avg: Averages, mm: MinMax,
                    tracked: (nat, real, real), processing: real): (row: seq<Cell>)
    requires processing != 0.0
    ensures |row| == 18 + |uptimes|
  {
    [Str(testName), Num(numRecords as real)] + TaskDurations(uptimes)
    + [OptCell(avg.cpu), OptCell(avg.vms), OptCell(avg.ram), OptCell(avg.swap)]
    + [OptCell(mm.minVms), OptCell(mm.maxVms), OptCell(mm.minRam), OptCell(mm.maxRam), OptCell(mm.minSwap), OptCell(mm.maxSwap)]
    + Derived(tracked, avg.cpu, processing)
  }

  /** `_process_file` on a loaded stats file: the statistics row and the column
      names it goes under. Missing processing labels fail as the window queries
      do; a file without a processing task fails with the KeyError of the task
      lookup, and a processing time of zero with the division by it. */
  function ProcessFile(fs: Stats, testName: string, numRecords: nat): (r: Result<(seq<Cell>, seq<string>)>)
    requires fs.numCores >= 1 && |fs.coreColumns| == fs.numCores
    ensures r.Ok? ==> |r.value.0| == |r.value.1| == 18 + |GetTimes(fs.rows, LabelStartPrefix, LabelFinishPrefix)|
  {
    var uptimes := GetTimes(fs.rows, LabelStartPrefix, LabelFinishPrefix);
    var averages :- AverageBetweenLabels(fs.rows, LabelStartProcessing, LabelFinishProcessing);
    var minMax := MinMaxMemoryStats(fs.rows, LabelStartProcessing, LabelFinishProcessing).value;
    var tracked :- TrackBetweenLabels(fs, LabelStartProcessing, LabelFinishProcessing, DefaultThreshold);
    var processing := Lookup(uptimes, LabelProcessing);
    if processing.None? then Err(KeyError(LabelProcessing))
    else if processing.value == 0.0 then Err(ZeroDivisionError)
    else
      StatsTimesIdAt();
      Ok((StatsRow(testName, numRecords, uptimes, averages, minMax, tracked, processing.value),
          GetStatsColumns(Firsts(uptimes))))
  }

  /** The row of a file with task table t, processing time p and average cpu
      usage cpu, under its columns: each cell sits under the column that names
      it, task durations under `time_<task>`; changes = rate × processing time,
      time with + time without a dominant core = processing time, and energy =
      average cpu × processing time. */
  predicate RowUnderColumns(row: seq<Cell>, cols: seq<string>, testName: string, numRecords: nat,
                            t: Times, p: real, cpu: Option<real>) {
    var n := |t|;
    |row| == |cols| == 18 + n
    && cols[0] == "test_name" && row[0] == Str(testName)
    && cols[1] == "num_records" && row[1] == Num(numRecords as real)
    && (forall i :: 0 <= i < n ==> cols[2 + i] == TimeColumn(t[i].0) && row[2 + i] == Num(t[i].1))
    && cols[2 + n] == "avg_cpu_usage" && row[2 + n] == OptCell(cpu)
    && cols[12 + n] == "dominant_core_changes" && cols[13 + n] == "core_changes_by_time"
    && row[12 + n].Num? && row[13 + n].Num? && row[13 + n].x * p == row[12 + n].x
    && cols[14 + n] == "time_with_dominant_core" && cols[15 + n] == "time_not_dominant_core"
    && row[14 + n].Num? && row[15 + n].Num? && row[14 + n].x + row[15 + n].x == p
    && cols[17 + n] == "energy_consumption"
    && row[17 + n] == (if cpu.Some? then Num(cpu.value * p) else Null)
  }

  /** A processed file's row lines up with its columns, and its processing time is
      the span between the last processing start and finish labels. */
  lemma ProcessFileSpec(fs: Stats, testName: string, numRecords: nat)
    requires fs.numCores >= 1 && |fs.coreColumns| == fs.numCores
    requires ProcessFile(fs, testName, numRecords).Ok?
    ensures var r := ProcessFile(fs, testName, numRecords).value;
      var t := GetTimes(fs.rows, LabelStartPrefix, LabelFinishPrefix);
      var a := LastLabelled(fs.rows, LabelStartProcessing);
      var b := LastLabelled(fs.rows, LabelFinishProcessing);
      var cpu := AverageBetweenLabels(fs.rows, LabelStartProcessing, LabelFinishProcessing).value.cpu;
      Lookup(t, LabelProcessing).Some? && a.Some? && b.Some?
      && Lookup(t, LabelProcessing).value == fs.rows[b.value].uptime - fs.rows[a.value].uptime
      && RowUnderColumns(r.0, r.1, testName, numRecords, t, Lookup(t, LabelProcessing).value, cpu)
  {
    var t := GetTimes(fs.rows, LabelStartPrefix, LabelFinishPrefix);
    var avg := AverageBetweenLabels(fs.rows, LabelStartProcessing, LabelFinishProcessing).value;
    var mm := MinMaxMemoryStats(fs.rows, LabelStartProcessing, LabelFinishProcessing).value;
    var tracked := TrackBetweenLabels(fs, LabelStartProcessing, LabelFinishProcessing, DefaultThreshold).value;
    ProcessFileValue(fs, testName, numRecords);
    var p := Lookup(t, LabelProcessing).value;
    StatsRowUnderColumns(testName, numRecords, t, avg, mm, tracked, p);
    GetTimesSpec(fs.rows, LabelStartPrefix, LabelFinishPrefix, LabelProcessing);
  }

  /** What a successful `_process_file` returns. */
  lemma ProcessFileValue(fs: Stats, testName: string, numRecords: nat)
    requires fs.numCores >= 1 && |fs.coreColumns| == fs.numCores
    requires ProcessFile(fs, testName, numRecords).Ok?
    ensures var t := GetTimes(fs.rows, LabelStartPrefix, LabelFinishPrefix);
      var p := Lookup(t, LabelProcessing);
      var avg := AverageBetweenLabels(fs.rows, LabelStartProcessing, LabelFinishProcessing);
      var mm := MinMaxMemoryStats(fs.rows, LabelStartProcessing, LabelFinishProcessing);
      var tracked := TrackBetweenLabels(fs, LabelStartProcessing, LabelFinishProcessing, DefaultThreshold);
      p.Some? && p.value != 0.0 && avg.Ok? && mm.Ok? && tracked.Ok?
      && ProcessFile(fs, testName, numRecords).value
         == (StatsRow(testName, numRecords, t, avg.value, mm.value, tracked.value, p.value), GetStatsColumns(Firsts(t)))
  {
  }

  /** The row built from any statistics lines up with the columns of its tasks. */
  lemma StatsRowUnderColumns(testName: string, numRecords: nat, t: Times, avg: Averages, mm: MinMax,
                             tracked: (nat, real, real), p: real)
    requires p != 0.0
    ensures RowUnderColumns(StatsRow(testName, numRecords, t, avg, mm, tracked, p), GetStatsColumns(Firsts(t)),
                            testName, numRecords, t, p, avg.cpu)
  {
    StatsRowSpec(testName, numRecords, t, avg, mm, tracked, p);
    StatsColumnsAt(Firsts(t));
  }

  /** Where each statistic sits in the row of a file with n tasks. */
  lemma StatsRowSpec(testName: string, numRecords: nat, uptimes: Times, avg: Averages, mm: MinMax,
                     tracked: (nat, real, real), p: real)
    requires p != 0.0
    ensures var row := StatsRow(testName, numRecords, uptimes, avg, mm, tracked, p);
      var n := |uptimes|;
      row[0] == Str(testName) && row[1] == Num(numRecords as real)
      && (forall i :: 0 <= i < n ==> row[2 + i] == Num(uptimes[i].1))
      && row[2 + n] == OptCell(avg.cpu)
      && row[12 + n].Num? && row[13 + n].Num? && row[13 + n].x * p == row[12 + n].x
      && row[14 + n].Num? && row[15 + n].Num? && row[14 + n].x + row[15 + n].x == p
      && row[17 + n] == (if avg.cpu.Some? then Num(avg.cpu.value * p) else Null)
  {
    var row := StatsRow(testName, numRecords, uptimes, avg, mm, tracked, p);
    var n := |uptimes|;
    var d := Derived(tracked, avg.cpu, p);
    assert row[12 + n..] == d;
    assert d[1].x * p == d[0].x by { QuotientTimes(tracked.0 as real, p); }
  }

  lemma QuotientTimes(a: real, p: real)
    requires p != 0.0
    ensures (a / p) * p == a
  {
  }

  /** The names of the columns around the task columns, for n tasks. */
  lemma StatsColumnsAt(tags: seq<string>)
    ensures var cols := GetStatsColumns(tags);
      var n := |tags|;
      cols[0] == "test_name" && cols[1] == "num_records"
      && (forall i :: 0 <= i < n ==> cols[2 + i] == TimeColumn(tags[i]))
      && cols[2 + n] == "avg_cpu_usage" && cols[12 + n] == "dominant_core_changes"
      && cols[13 + n] == "core_changes_by_time" && cols[14 + n] == "time_with_dominant_core"
      && cols[15 + n] == "time_not_dominant_core" && cols[17 + n] == "energy_consumption"
  {
    StatsTimesIdAt();
    var cols := GetStatsColumns(tags);
    assert cols[..2] == StatsColumns[..2];
    assert cols[0] == cols[..2][0] && cols[1] == cols[..2][1];
    assert cols[2 + |tags|..] == StatsColumns[3..];
  }

  // ---------------------------------------------------------------------------
  // Normalisation

  /** One statistic of one (test, record count) group of a scenario's results. */
  datatype Measure = Measure(testName: string, numRecords: nat, value: real)

  /** The measure and its value relative to the best of its record-count group. */
  datatype Normalized = Normalized(testName: string, numRecords: nat, value: real, normalized: Cell)

  /** The smallest value among the measures of record count n, if any. */
  function GroupMin(ms: seq<Measure>, n: nat): (m: Option<real>)
  {
    if |ms| == 0 then None
    else
      var rest := GroupMin(ms[..|ms| - 1], n);
      var last := ms[|ms| - 1];
      if last.numRecords != n then rest
      else if rest.None? || last.value < rest.value then Some(last.value)
      else rest
  }

  /** Measure i is of record count n and attains the value m. */
  predicate Attains(ms: seq<Measure>, n: nat, i: int, m: real) {
    0 <= i < |ms| && ms[i].numRecords == n && ms[i].value == m
  }

  /** The group minimum exists exactly when the group is non-empty, is the value
      of one of its measures and is at most every value of the group. */
  lemma {:induction false} GroupMinSpec(ms: seq<Measure>, n: nat)
    ensures GroupMin(ms, n).Some? <==> exists i :: 0 <= i < |ms| && ms[i].numRecords == n
    ensures GroupMin(ms, n).Some? ==> exists i :: Attains(ms, n, i, GroupMin(ms, n).value)
    ensures GroupMin(ms, n).Some? ==> forall i :: 0 <= i < |ms| && ms[i].numRecords == n ==> GroupMin(ms, n).value <= ms[i].value
  {
    if |ms| > 0 {
      var init := ms[..|ms| - 1];
      GroupMinSpec(init, n);
      var rest := GroupMin(init, n);
      var last := ms[|ms| - 1];
      assert forall i :: 0 <= i < |init| ==> init[i] == ms[i];
      if rest.Some? {
        var i :| Attains(init, n, i, rest.value);
        assert Attains(ms, n, i, rest.value);
      }
      if last.numRecords == n {
        assert Attains(ms, n, |ms| - 1, last.value);
      }
    }
  }

  /** `values / values.min()`; a zero minimum yields no number (infinity or NaN). */
  function Ratio(v: real, m: real): Cell {
    if m == 0.0 then Null else Num(v / m)
  }

  /** A measure's own group always has a minimum. */
  lemma GroupMinOfMember(ms: seq<Measure>, i: nat)
    requires i < |ms|
    ensures GroupMin(ms, ms[i].numRecords).Some?
  {
    GroupMinSpec(ms, ms[i].numRecords);
  }

  function NormalizedOf(ms: seq<Measure>, i: nat): Normalized
    requires i < |ms|
  {
    GroupMinOfMember(ms, i);
    var g := GroupMin(ms, ms[i].numRecords);
    Normalized(ms[i].testName, ms[i].numRecords, ms[i].value, Ratio(ms[i].value, g.value))
  }

  /** The sort key `["num_records", "normalized_" + column]`. */
  function ByGroupThenNormalized(r: Normalized): Key {
    [Num(r.numRecords as real), r.normalized]
  }

  /** One column of `_normalize_results`: each measure divided by the minimum of
      its record-count group, sorted by record count and then normalised value. */
  function NormalizeColumn(ms: seq<Measure>): (r: seq<Normalized>) {
    SortBy(seq(|ms|, i requires 0 <= i < |ms| => NormalizedOf(ms, i)), ByGroupThenNormalized)
  }

  /** The normalised table holds each measure once, with its own normalised value,
      and is ordered by record count and then normalised value. */
  lemma NormalizeColumnSpec(ms: seq<Measure>)
    ensures var r := NormalizeColumn(ms);
      multiset(r) == multiset(seq(|ms|, i requires 0 <= i < |ms| => NormalizedOf(ms, i)))
      && |r| == |ms| && SortedBy(r, ByGroupThenNormalized)
  {
    var s := seq(|ms|, i requires 0 <= i < |ms| => NormalizedOf(ms, i));
    SortByIsSorted(s, ByGroupThenNormalized);
    SortByLength(s, ByGroupThenNormalized);
  }

  /** With a positive group minimum, every normalised value of the group is at
      least 1, and the best measure of the group scores exactly 1. */
  lemma NormalizedAtLeastOne(ms: seq<Measure>, i: nat)
    requires i < |ms|
    requires GroupMin(ms, ms[i].numRecords).Some? && GroupMin(ms, ms[i].numRecords).value > 0.0
    ensures NormalizedOf(ms, i).normalized.Num? && NormalizedOf(ms, i).normalized.x >= 1.0
    ensures ms[i].value == GroupMin(ms, ms[i].numRecords).value ==> NormalizedOf(ms, i).normalized == Num(1.0)
  {
    var m := GroupMin(ms, ms[i].numRecords).value;
    assert m <= ms[i].value by { GroupMinSpec(ms, ms[i].numRecords); }
    assert ms[i].value / m >= 1.0 by { DivAtLeastOne(ms[i].value, m); }
  }

  lemma DivAtLeastOne(v: real, m: real)
    requires 0.0 < m <= v
    ensures v / m >= 1.0
  {
  }

  /** Every value of a column passed through f. */
  function Mapped(ms: seq<Measure>, f: real -> real): (r: seq<Measure>)
    ensures |r| == |ms|
    ensures forall k :: 0 <= k < |ms| ==> r[k] == Measure(ms[k].testName, ms[k].numRecords, f(ms[k].value))
  {
    seq(|ms|, k requires 0 <= k < |ms| => Measure(ms[k].testName, ms[k].numRecords, f(ms[k].value)))
  }

  /** Multiplication by c, the change of unit of a column. */
  function ScaleBy(c: real): real -> real {
    x => c * x
  }

  lemma ScaleByIncreasing(c: real)
    requires c > 0.0
    ensures Increasing(ScaleBy(c))
  {
    forall a: real, b: real ensures a < b <==> ScaleBy(c)(a) < ScaleBy(c)(b) {
      ScaleMonotone(a, b, c);
    }
  }

  /** f keeps the strict order of values both ways. */
  ghost predicate Increasing(f: real -> real) {
    forall a: real, b: real :: a < b <==> f(a) < f(b)
  }

  /** Normalisation does not depend on the unit: scaling every value of a column
      by the same positive factor leaves every normalised value unchanged. */
  lemma NormalizeScaleInvariant(ms: seq<Measure>, c: real, i: nat)
    requires c > 0.0 && i < |ms|
    ensures NormalizedOf(Mapped(ms, ScaleBy(c)), i).normalized == NormalizedOf(ms, i).normalized
  {
    var n := ms[i].numRecords;
    ScaleByIncreasing(c);
    GroupMinMapped(ms, ScaleBy(c), n);
    GroupMinOfMember(ms, i);
    RatioScaled(ms[i].value, GroupMin(ms, n).value, c);
  }

  lemma RatioScaled(v: real, m: real, c: real)
    requires c > 0.0
    ensures Ratio(ScaleBy(c)(v), ScaleBy(c)(m)) == Ratio(v, m)
  {
    if m != 0.0 {
      assert (c * v) / (c * m) == v / m;
    }
  }

  lemma MappedInit(ms: seq<Measure>, f: real -> real)
    requires |ms| > 0
    ensures Mapped(ms, f)[..|ms| - 1] == Mapped(ms[..|ms| - 1], f)
  {
    var a, b := Mapped(ms, f)[..|ms| - 1], Mapped(ms[..|ms| - 1], f);
    assert forall k :: 0 <= k < |a| ==> a[k] == b[k];
  }

  /** An order-preserving map of the values maps the group minimum. */
  lemma {:induction false} GroupMinMapped(ms: seq<Measure>, f: real -> real, n: nat)
    requires Increasing(f)
    ensures GroupMin(Mapped(ms, f), n) == if GroupMin(ms, n).Some? then Some(f(GroupMin(ms, n).value)) else None
  {
    if |ms| > 0 {
      GroupMinMapped(ms[..|ms| - 1], f, n);
      MappedInit(ms, f);
    }
  }

  lemma ScaleMonotone(a: real, b: real, c: real)
    requires c > 0.0
    ensures a < b <==> c * a < c * b
  {
  }

  /** A column `_normalize_results` normalises: neither the test name nor the record count. */
  predicate IsStatistic(name: string) {
    name != "test_name" && name != "num_records"
  }

  /** The number of statistic columns among `columns`. */
  function StatisticCount<T>(columns: seq<(string, T)>): (n: nat)
    ensures n <= |columns|
  {
    if |columns| == 0 then 0
    else StatisticCount(columns[..|columns| - 1]) + (if IsStatistic(columns[|columns| - 1].0) then 1 else 0)
  }

  /** The tables made from `columns`: every statistic column's values passed
      through `normalize`, in column order; the test name and the record count
      are skipped. */
  function StatisticTables<T, U>(columns: seq<(string, T)>, normalize: T -> U): (r: seq<(string, U)>)
    ensures |r| <= |columns|
    ensures forall j :: 0 <= j < |r| ==> IsStatistic(r[j].0)
  {
    if |columns| == 0 then []
    else
      var rest := StatisticTables(columns[1..], normalize);
      var c := columns[0];
      if c.0 == "test_name" || c.0 == "num_records" then rest
      else [(c.0, normalize(c.1))] + rest
  }

  /** `_normalize_results`: one normalised table per statistic, for every column
      but the test name and the record count, in column order. */
  function NormalizeResults(columns: seq<(string, seq<Measure>)>): (r: seq<(string, seq<Normalized>)>)
    ensures |r| <= |columns|
    ensures forall j :: 0 <= j < |r| ==> IsStatistic(r[j].0)
  {
    StatisticTables(columns, NormalizeColumn)
  }

  lemma {:induction false} StatisticCountFront<T>(columns: seq<(string, T)>)
    requires |columns| > 0
    ensures StatisticCount(columns) == (if IsStatistic(columns[0].0) then 1 else 0) + StatisticCount(columns[1..])
    decreases |columns|
  {
    if |columns| > 1 {
      var init := columns[..|columns| - 1];
      StatisticCountFront(init);
      assert init[1..] == columns[1..][..|columns[1..]| - 1];
      assert init[0] == columns[0];
    } else {
      assert columns[..0] == [] && columns[1..] == [];
    }
  }

  lemma StatisticCountShift<T>(columns: seq<(string, T)>, i: nat)
    requires 0 < i <= |columns|
    ensures StatisticCount(columns[..i]) == (if IsStatistic(columns[0].0) then 1 else 0) + StatisticCount(columns[1..][..i - 1])
  {
    StatisticCountFront(columns[..i]);
    assert columns[..i][1..] == columns[1..][..i - 1];
  }

  /** Past the table the first column contributes, the tables are those of the
      remaining columns. */
  lemma StatisticTablesShift<T, U>(columns: seq<(string, T)>, normalize: T -> U, k: nat)
    requires |columns| > 0 && k < |StatisticTables(columns[1..], normalize)|
    ensures var d := if IsStatistic(columns[0].0) then 1 else 0;
      d + k < |StatisticTables(columns, normalize)|
      && StatisticTables(columns, normalize)[d + k] == StatisticTables(columns[1..], normalize)[k]
  {
    var tail := StatisticTables(columns[1..], normalize);
    if IsStatistic(columns[0].0) {
      var head := [(columns[0].0, normalize(columns[0].1))];
      assert (head + tail)[1 + k] == tail[k];
    }
  }

  /** One table per statistic column. */
  lemma {:induction false} StatisticTablesLength<T, U>(columns: seq<(string, T)>, normalize: T -> U)
    ensures |StatisticTables(columns, normalize)| == StatisticCount(columns)
    decreases |columns|
  {
    if |columns| > 0 {
      StatisticTablesLength(columns[1..], normalize);
      StatisticCountFront(columns);
    }
  }

  /** The statistic in column i is normalised at the position counting the
      statistics before it. */
  lemma {:induction false} StatisticTablesAt<T, U>(columns: seq<(string, T)>, normalize: T -> U, i: nat)
    requires i < |columns| && IsStatistic(columns[i].0)
    ensures StatisticCount(columns[..i]) < |StatisticTables(columns, normalize)|
    ensures StatisticTables(columns, normalize)[StatisticCount(columns[..i])] == (columns[i].0, normalize(columns[i].1))
    decreases i
  {
    if i == 0 {
      assert columns[..0] == [];
    } else {
      var rest := columns[1..];
      assert rest[i - 1] == columns[i];
      StatisticTablesAt(rest, normalize, i - 1);
      StatisticCountShift(columns, i);
      StatisticTablesShift(columns, normalize, StatisticCount(rest[..i - 1]));
    }
  }

  /** The tables are exactly one per statistic column, in column order: the
      statistic at position i is normalised at the position counting the
      statistics before it, and nothing else is listed. */
  lemma NormalizeResultsSpec(columns: seq<(string, seq<Measure>)>)
    ensures |NormalizeResults(columns)| == StatisticCount(columns)
    ensures forall i :: 0 <= i < |columns| && IsStatistic(columns[i].0) ==>
      StatisticCount(columns[..i]) < |NormalizeResults(columns)|
      && NormalizeResults(columns)[StatisticCount(columns[..i])] == (columns[i].0, NormalizeColumn(columns[i].1))
  {
    StatisticTablesLength(columns, NormalizeColumn);
    forall i | 0 <= i < |columns| && IsStatistic(columns[i].0)
      ensures StatisticCount(columns[..i]) < |NormalizeResults(columns)|
      ensures NormalizeResults(columns)[StatisticCount(columns[..i])] == (columns[i].0, NormalizeColumn(columns[i].1))
    {
      StatisticTablesAt(columns, NormalizeColumn, i);
    }
  }
}
