/** The script that gathers the per-scenario summary tables of the energy
    experiments into one metrics table: the flavour and the scenario read off a
    summary file name, the rows taken from every summary file (confidence-interval
    files and files without a header are skipped), and the single output table
    written only when there is at least one row. Globbing, opening and writing
    files are not modelled: the matched files come in as values with their header
    and their records, and the output is the list of records the writer emits. */
module AggregateAll {
  import opened Wrappers
  import opened Text
  import opened Ordering
  import CsvBuffer

  // ---------------------------------------------------------------------------
  // File name helpers

  const NoGil: string := "nogil"
  const Gil: string := "gil"

  /** `detect_flavor`: "nogil" when the name mentions it anywhere, else "gil". */
  function DetectFlavor(filename: string): (r: string)
    ensures r == NoGil || r == Gil
    ensures r == NoGil <==> Contains(filename, NoGil)
  {
    if Find(filename, NoGil).Some? then NoGil else Gil
  }

  const SummaryMarker: string := "_summary_"
  const CsvExtension: string := ".csv"

  /** The base name with every ".csv" removed. */
  function Stem(filename: string): string {
    Replace(Basename(filename), CsvExtension, "")
  }

  /** `scenario_from_filename`: the stem up to the first "_summary_". Python's
      `split` never returns an empty list, so the fallback to the base name is
      never taken. */
  function ScenarioFromFilename(filename: string): string {
    Split(Stem(filename), SummaryMarker)[0]
  }

  /** The first piece of a split on "_summary_" is the text before the first
      marker, or the whole text when there is none. */
  lemma FirstPieceSpec(stem: string)
    ensures var r := Split(stem, SummaryMarker)[0];
      StartsWith(stem, r) && !Contains(r, SummaryMarker)
      && (Contains(stem, SummaryMarker) ==> StartsWith(stem, r + SummaryMarker))
      && (!Contains(stem, SummaryMarker) ==> r == stem)
  {
    match Find(stem, SummaryMarker)
    case None =>
    case Some(i) =>
      var r := stem[..i];
      assert Split(stem, SummaryMarker)[0] == r;
      assert stem[..i + |SummaryMarker|] == r + SummaryMarker;
      forall j: nat | j <= |r| && OccursAt(r, SummaryMarker, j) ensures false {
        assert stem[j..j + |SummaryMarker|] == r[j..j + |SummaryMarker|];
        assert OccursAt(stem, SummaryMarker, j);
      }
  }

  /** The scenario is the part of the stem before its first "_summary_", or the
      whole stem when there is none. */
  lemma ScenarioFromFilenameSpec(filename: string)
    ensures var stem, r := Stem(filename), ScenarioFromFilename(filename);
      StartsWith(stem, r) && !Contains(r, SummaryMarker)
      && (Contains(stem, SummaryMarker) ==> StartsWith(stem, r + SummaryMarker))
      && (!Contains(stem, SummaryMarker) ==> r == stem)
  {
    FirstPieceSpec(Stem(filename));
  }

  /** Removing ".csv" from a text without dots followed by ".csv" leaves the text. */
  lemma {:induction false} DropCsvExtension(x: string)
    requires '.' !in x
    ensures Replace(x + CsvExtension, CsvExtension, "") == x
    decreases |x|
  {
    var s := x + CsvExtension;
    if |x| == 0 {
      assert s[..4] == CsvExtension && s[4..] == "";
    } else {
      assert s[..4] != CsvExtension by {
        assert s[..4][0] == x[0];
      }
      assert s[1..] == x[1..] + CsvExtension;
      DropCsvExtension(x[1..]);
      assert x == [x[0]] + x[1..];
    }
  }

  /** In `a + "_summary_" + b` the first marker is the one after `a` when `a`
      holds no "_summary": an earlier one would either lie in `a` or put its
      leading `_` on one of the letters of "summary". */
  lemma FirstMarker(a: string, b: string)
    requires !Contains(a, "_summary")
    ensures Find(a + SummaryMarker + b, SummaryMarker) == Some(|a|)
  {
    var s := a + SummaryMarker + b;
    assert s[|a|..|a| + 9] == SummaryMarker;
    assert OccursAt(s, SummaryMarker, |a|);
    var i := Find(s, SummaryMarker).value;
    if i < |a| {
      if i + 8 <= |a| {
        assert a[i..i + 8] == s[i..i + 9][..8];
        assert OccursAt(a, "_summary", i);
      } else {
        MarkerLetters(s, i, |a|);
      }
    }
  }

  /** Inside an occurrence of "_summary_", the seven letters of "summary" are no `_`. */
  lemma MarkerLetters(s: string, i: nat, k: nat)
    requires OccursAt(s, SummaryMarker, i) && i < k < i + 8
    ensures s[k] != '_'
  {
    assert s[k] == s[i..i + 9][k - i];
  }

  /** The scenario of a summary file named `<scenario>_summary_<flavor>.csv` in
      any folder is `<scenario>`. */
  lemma ScenarioRoundTrip(dir: string, scenario: string, flavor: string)
    requires '/' !in scenario && '/' !in flavor && '.' !in scenario && '.' !in flavor
    requires !Contains(scenario, "_summary")
    ensures ScenarioFromFilename(dir + "/" + scenario + SummaryMarker + flavor + CsvExtension) == scenario
  {
    var name := scenario + SummaryMarker + flavor;
    var path := dir + "/" + scenario + SummaryMarker + flavor + CsvExtension;
    assert path == dir + "/" + (name + CsvExtension);
    assert '/' !in name + CsvExtension;
    assert path[|path| - |name + CsvExtension| - 1] == '/';
    BasenameUnique(path, name + CsvExtension);
    assert '.' !in name;
    DropCsvExtension(name);
    FirstMarker(scenario, flavor);
    SplitAt(name, SummaryMarker, |scenario|);
  }

  // ---------------------------------------------------------------------------
  // Collecting rows

  /** A summary file the glob matched: its path, its header row (empty when the
      file is empty or starts with a blank line) and the records after it. */
  datatype SummaryFile = SummaryFile(path: string, header: seq<string>, records: seq<seq<string>>)

  /** One collected row: the dictionary `collect_rows` builds, with its ten keys. */
  datatype AggregatedRow = AggregatedRow(
    scenario: string, flavor: string, variantType: string, variantValue: Cell,
    uptime: Cell, cpuUsage: Cell, energyMax: Cell, vms: Cell, ram: Cell, coresDisparity: Cell)

  const CvSuffix: string := "_cv.csv"

  /** Files `collect_rows` passes over: confidence-interval tables and files
      without header fields. */
  predicate Skipped(f: SummaryFile) {
    EndsWith(f.path, CvSuffix) || f.header == []
  }

  /** The position of the last header field named `key`: a `csv.DictReader`
      row is built by zipping the header with the record, so a later duplicate
      field overwrites an earlier one. */
  function LastIndex(header: seq<string>, key: string): (i: nat)
    requires key in header
    ensures i < |header| && header[i] == key
    ensures forall j :: i < j < |header| ==> header[j] != key
  {
    if header[|header| - 1] == key then |header| - 1 else LastIndex(header[..|header| - 1], key)
  }

  /** `row.get(key, "")` on a `csv.DictReader` row: "" for a key the header
      lacks, None (`Null`) for a header field the short record does not reach,
      otherwise the record's text. */
  function Get(header: seq<string>, record: seq<string>, key: string): Cell {
    if key !in header then Str("")
    else if LastIndex(header, key) < |record| then Str(record[LastIndex(header, key)])
    else Null
  }

  /** The row one record of a summary file yields. */
  function RowOf(f: SummaryFile, record: seq<string>): AggregatedRow
    requires f.header != []
  {
    AggregatedRow(
      ScenarioFromFilename(f.path), DetectFlavor(f.path), f.header[0],
      Get(f.header, record, f.header[0]), Get(f.header, record, "uptime"),
      Get(f.header, record, "cpu_usage"), Get(f.header, record, "energy_max"),
      Get(f.header, record, "vms"), Get(f.header, record, "ram"),
      Get(f.header, record, "cores_disparity"))
  }

  /** The rows of the records `rs` of a file; the reader skips blank records. */
  function RecordRows(f: SummaryFile, rs: seq<seq<string>>): seq<AggregatedRow>
    requires f.header != []
  {
    if |rs| == 0 then []
    else RecordRows(f, rs[..|rs| - 1]) + (if rs[|rs| - 1] == [] then [] else [RowOf(f, rs[|rs| - 1])])
  }

  function FileRows(f: SummaryFile): seq<AggregatedRow> {
    if Skipped(f) then [] else RecordRows(f, f.records)
  }

  /** All rows of the files, file by file and record by record. */
  function RowsOf(files: seq<SummaryFile>): seq<AggregatedRow> {
    if |files| == 0 then [] else RowsOf(files[..|files| - 1]) + FileRows(files[|files| - 1])
  }

  lemma RecordRowsNext(f: SummaryFile, rs: seq<seq<string>>, j: nat)
    requires f.header != [] && j < |rs|
    ensures RecordRows(f, rs[..j + 1])
      == RecordRows(f, rs[..j]) + (if rs[j] == [] then [] else [RowOf(f, rs[j])])
  {
    assert rs[..j + 1][..j] == rs[..j];
  }

  lemma RowsOfNext(files: seq<SummaryFile>, i: nat)
    requires i < |files|
    ensures RowsOf(files[..i + 1]) == RowsOf(files[..i]) + FileRows(files[i])
  {
    assert files[..i + 1][..i] == files[..i];
  }

  /** Appending the rows of the records of one file. */
  method AppendRecordRows(rows: seq<AggregatedRow>, f: SummaryFile) returns (rows': seq<AggregatedRow>)
    requires f.header != []
    ensures rows' == rows + RecordRows(f, f.records)
  {
    rows' := rows;
    var j := 0;
    while j < |f.records|
      invariant j <= |f.records|
      invariant rows' == rows + RecordRows(f, f.records[..j])
    {
      RecordRowsNext(f, f.records, j);
      var record := f.records[j];
      if record != [] {
        rows' := rows' + [RowOf(f, record)];
      }
      j := j + 1;
    }
    assert f.records[..j] == f.records;
  }

  /** `collect_rows`: the rows of every file in glob order. */
  method CollectRows(files: seq<SummaryFile>) returns (rows: seq<AggregatedRow>)
    ensures rows == RowsOf(files)
  {
    rows := [];
    var i := 0;
    while i < |files|
      invariant i <= |files|
      invariant rows == RowsOf(files[..i])
    {
      RowsOfNext(files, i);
      var f := files[i];
      if !EndsWith(f.path, CvSuffix) && f.header != [] {
        rows := AppendRecordRows(rows, f);
      }
      i := i + 1;
    }
    assert files[..i] == files;
  }

  /** Where a collected row comes from: a file that is neither a confidence-interval
      table nor headerless, whose name gives the row's scenario and flavour and
      whose first header field is the row's variant type. */
  predicate RowFrom(r: AggregatedRow, f: SummaryFile) {
    !Skipped(f) && r.scenario == ScenarioFromFilename(f.path) && r.flavor == DetectFlavor(f.path)
    && r.variantType == f.header[0]
  }

  lemma {:induction false} RecordRowsFrom(f: SummaryFile, rs: seq<seq<string>>, r: AggregatedRow)
    requires !Skipped(f) && r in RecordRows(f, rs)
    ensures RowFrom(r, f)
    decreases |rs|
  {
    if r in RecordRows(f, rs[..|rs| - 1]) {
      RecordRowsFrom(f, rs[..|rs| - 1], r);
    }
  }

  /** Every collected row comes from a kept file and carries that file's
      scenario, flavour and variant column. */
  lemma {:induction false} CollectedRowsFrom(files: seq<SummaryFile>, r: AggregatedRow)
    requires r in RowsOf(files)
    ensures exists i :: 0 <= i < |files| && RowFrom(r, files[i])
    decreases |files|
  {
    var init := files[..|files| - 1];
    if r in RowsOf(init) {
      CollectedRowsFrom(init, r);
      var i :| 0 <= i < |init| && RowFrom(r, init[i]);
      assert files[i] == init[i];
    } else {
      RecordRowsFrom(files[|files| - 1], files[|files| - 1].records, r);
    }
  }

  /** Every non-blank record of a kept file yields its row among the collected
      rows. */
  lemma CollectedRowsComplete(files: seq<SummaryFile>, i: nat, j: nat)
    requires i < |files| && !Skipped(files[i])
    requires j < |files[i].records| && files[i].records[j] != []
    ensures RowOf(files[i], files[i].records[j]) in RowsOf(files)
  {
    RecordRowsComplete(files[i], files[i].records, j);
    InRowsOf(files, i, RowOf(files[i], files[i].records[j]));
  }

  lemma {:induction false} InRowsOf(files: seq<SummaryFile>, i: nat, x: AggregatedRow)
    requires i < |files| && x in FileRows(files[i])
    ensures x in RowsOf(files)
    decreases |files|
  {
    var init := files[..|files| - 1];
    if i < |init| {
      assert init[i] == files[i];
      InRowsOf(init, i, x);
    }
  }

  lemma {:induction false} RecordRowsComplete(f: SummaryFile, rs: seq<seq<string>>, j: nat)
    requires f.header != [] && j < |rs| && rs[j] != []
    ensures RowOf(f, rs[j]) in RecordRows(f, rs)
    decreases |rs|
  {
    var init := rs[..|rs| - 1];
    if j < |init| {
      assert init[j] == rs[j];
      RecordRowsComplete(f, init, j);
    }
  }

  /** A record that reaches every header field gives each named field's text;
      a field the header lacks reads as "". */
  lemma GetSpec(header: seq<string>, record: seq<string>, key: string)
    requires |record| >= |header|
    ensures key in header ==> Get(header, record, key) == Str(record[LastIndex(header, key)])
    ensures key !in header ==> Get(header, record, key) == Str("")
  {
  }

  // ---------------------------------------------------------------------------
  // Writing the output

  const OutputColumns: seq<string> :=
    ["scenario", "flavor", "variant_type", "variant_value", "uptime", "cpu_usage", "energy_max",
     "vms", "ram", "cores_disparity"]

  /** The record `write_output` appends for a row: its ten values in column order. */
  function RecordOf(row: AggregatedRow): CsvBuffer.Record {
    [Str(row.scenario), Str(row.flavor), Str(row.variantType), row.variantValue, row.uptime,
     row.cpuUsage, row.energyMax, row.vms, row.ram, row.coresDisparity]
  }

  /** Reading a written record back into a row. */
  function RowOfRecord(r: CsvBuffer.Record): (row: Option<AggregatedRow>)
    ensures row.Some? ==> |r| == |OutputColumns|
  {
    if |r| != 10 || !r[0].Str? || !r[1].Str? || !r[2].Str? then None
    else Some(AggregatedRow(r[0].s, r[1].s, r[2].s, r[3], r[4], r[5], r[6], r[7], r[8], r[9]))
  }

  /** A written record reads back as the row it was made from. */
  lemma RecordRoundTrip(row: AggregatedRow)
    ensures RowOfRecord(RecordOf(row)) == Some(row)
  {
  }

  function Records(rows: seq<AggregatedRow>): (rs: seq<CsvBuffer.Record>)
    ensures |rs| == |rows|
  {
    seq(|rows|, i requires 0 <= i < |rows| => RecordOf(rows[i]))
  }

  /** `write_output`: nothing is written without rows; otherwise the table is the
      header followed by one record per row, in collection order, each of which
      reads back as its row. */
  method WriteOutput(rows: seq<AggregatedRow>, outputPath: string) returns (written: Option<seq<CsvBuffer.Record>>)
    ensures written.None? <==> rows == []
    ensures written.Some? ==>
      && |written.value| == |rows| + 1
      && written.value[0] == CsvBuffer.Header(OutputColumns)
      && (forall i :: 0 <= i < |rows| ==> RowOfRecord(written.value[i + 1]) == Some(rows[i]))
  {
    if |rows| == 0 {
      return None;
    }
    var writer := new CsvBuffer.FileWriterCsv(outputPath);
    var _ := writer.SetColumns(OutputColumns);
    var i := 0;
    while i < |rows|
      invariant i <= |rows|
      invariant writer.columns == OutputColumns
      invariant writer.rows == Records(rows[..i])
    {
      var _ := writer.AppendRow(RecordOf(rows[i]));
      assert Records(rows[..i + 1]) == Records(rows[..i]) + [RecordOf(rows[i])];
      i := i + 1;
    }
    assert rows[..i] == rows;
    var r := writer.WriteToCsv();
    written := Some(r.value);
    forall k | 0 <= k < |rows| ensures RowOfRecord(written.value[k + 1]) == Some(rows[k]) {
      assert written.value[k + 1] == RecordOf(rows[k]);
      RecordRoundTrip(rows[k]);
    }
  }
}
