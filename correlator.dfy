/** `StatsCleaner`, the correlator that runs after the profiled program has ended.
    It reads the tag lines the program printed, labels the resource samples with
    them, rebases every timestamp on the process creation time, rewrites the raw
    energy counter as cumulative joules and hands the rows, sorted by uptime, to
    the CSV buffer. The two input files are given as values: the printed lines and
    the CSV header with its records. Python's `float()` on a text is the parameter
    `floatOf` (None where it raises). */
module Correlator {
  import opened Wrappers
  import opened Text
  import opened Ordering
  import EnergyMeter
  import CsvBuffer

  /** A CSV record as `csv.DictReader` yields it: column name to cell. */
  type Row = map<string, Cell>

  datatype Tag = Tag(name: string, time: real)

  /** The prefix `set_tag` prints before every tag (PREFIX_MEASURE_TAG). */
  const TagPrefix: string := "measure_label-"
  const Separator: string := ": "

  /** The line `set_tag` prints for `tag` when the clock reads the number whose
      text is `timeText`. */
  function SetTagLine(tag: string, timeText: string): (line: string)
    ensures StartsWith(line, TagPrefix)
  {
    TagPrefix + tag + Separator + timeText + "\n"
  }

  /** What one line of the program's output contributes. */
  datatype LineKind = OutputName(name: string) | TagRead(tag: Tag) | Ignored | Malformed(error: Error)

  /** `label, value = line.strip().split(": ")`. */
  function Unpack(line: string): (r: Result<(string, string)>)
    ensures r.Ok? <==> |Split(Strip(line), Separator)| == 2
    ensures r.Ok? ==> r.value.0 + Separator + r.value.1 == Strip(line)
  {
    var parts := Split(Strip(line), Separator);
    JoinSplit(Strip(line), Separator);
    if |parts| > 2 then Err(ValueError("too many values to unpack (expected 2)"))
    else if |parts| < 2 then Err(ValueError("not enough values to unpack (expected 2, got 1)"))
    else
      assert parts == [parts[0]] + [parts[1]];
      JoinCons(parts[0], [parts[1]], Separator);
      Ok((parts[0], parts[1]))
  }

  /** One step of `_read_program_output_file`: an output-name line is recognised
      before a tag line, and any other line is ignored. */
  function ParseLine(line: string, fileNamePrefix: string, floatOf: string -> Option<real>): (k: LineKind)
    ensures k.Ignored? <==> !StartsWith(line, fileNamePrefix) && !StartsWith(line, TagPrefix)
    ensures k.OutputName? ==> StartsWith(line, fileNamePrefix)
    ensures k.TagRead? ==> StartsWith(line, TagPrefix) && !StartsWith(line, fileNamePrefix)
  {
    if StartsWith(line, fileNamePrefix) then
      match Unpack(line)
      case Err(e) => Malformed(e)
      case Ok((_, filename)) => OutputName(filename)
    else if StartsWith(line, TagPrefix) then
      match Unpack(line)
      case Err(e) => Malformed(e)
      case Ok((tagText, timestamp)) =>
        match floatOf(timestamp)
        case None => Malformed(ValueError("could not convert string to float: '" + timestamp + "'"))
        case Some(t) => TagRead(Tag(Replace(tagText, TagPrefix, ""), t))
    else Ignored
  }

  /** A tag printed by `set_tag` is read back as the same tag and time, provided
      the tag holds neither the separator nor the prefix, the time text parses and
      does not end in whitespace, and the line is not taken for an output-name line. */
  lemma TagLineRoundTrip(tag: string, timeText: string, t: real, fileNamePrefix: string, floatOf: string -> Option<real>)
    requires !Contains(tag, Separator) && !Contains(tag, TagPrefix)
    requires !Contains(timeText, Separator) && |timeText| > 0 && !IsSpace(timeText[|timeText| - 1])
    requires floatOf(timeText) == Some(t)
    requires !StartsWith(SetTagLine(tag, timeText), fileNamePrefix)
    ensures ParseLine(SetTagLine(tag, timeText), fileNamePrefix, floatOf) == TagRead(Tag(tag, t))
  {
    TagLineUnpacks(tag, timeText);
    DropTagPrefix(tag);
  }

  /** A set_tag line unpacks into the prefixed tag and the time text. */
  lemma TagLineUnpacks(tag: string, timeText: string)
    requires !Contains(tag, Separator)
    requires !Contains(timeText, Separator) && |timeText| > 0 && !IsSpace(timeText[|timeText| - 1])
    ensures Unpack(SetTagLine(tag, timeText)) == Ok((TagPrefix + tag, timeText))
  {
    var head := TagPrefix + tag;
    var body := head + Separator + timeText;
    assert SetTagLine(tag, timeText) == body + "\n";
    StripLine(body);
    NoLeadChar(TagPrefix, Separator);
    NoPairAcross(TagPrefix, tag, Separator);
    SplitTwo(head, Separator, timeText);
  }

  /** Removing the prefix from the prefixed tag gives the tag back. */
  lemma DropTagPrefix(tag: string)
    requires !Contains(tag, TagPrefix)
    ensures Replace(TagPrefix + tag, TagPrefix, "") == tag
  {
    var head := TagPrefix + tag;
    assert head[..|TagPrefix|] == TagPrefix && head[|TagPrefix|..] == tag;
    ReplaceAbsent(tag, TagPrefix, "");
  }

  /** A tag that itself holds the separator makes the line split into three or more
      pieces, which the two-name unpacking rejects. */
  lemma TagLineExtraSeparator(tag: string, timeText: string, fileNamePrefix: string, floatOf: string -> Option<real>)
    requires Contains(tag, Separator)
    requires |timeText| > 0 && !IsSpace(timeText[|timeText| - 1])
    requires !StartsWith(SetTagLine(tag, timeText), fileNamePrefix)
    ensures ParseLine(SetTagLine(tag, timeText), fileNamePrefix, floatOf)
         == Malformed(ValueError("too many values to unpack (expected 2)"))
  {
    var body := TagPrefix + tag + Separator + timeText;
    assert SetTagLine(tag, timeText) == body + "\n";
    StripLine(body);
    var j: nat :| j <= |tag| && OccursAt(tag, Separator, j);
    var n := |TagPrefix|;
    assert body[n + j..n + j + 2] == tag[j..j + 2];
    assert body[n + |tag|..n + |tag| + 2] == Separator;
    SplitAtLeastThree(body, Separator, n + j, n + |tag|);
  }

  /** The fields `_read_program_output_file` fills, and the exception that stopped it. */
  datatype OutputRead = OutputRead(labels: seq<Tag>, outputName: Option<string>, error: Option<Error>)

  /** Reading the lines in order from a given state: the last output-name line wins,
      tags are appended in line order, and the first malformed line stops the
      reading with everything before it kept. */
  function ReadLines(labels: seq<Tag>, outputName: Option<string>, lines: seq<string>,
                     fileNamePrefix: string, floatOf: string -> Option<real>): (r: OutputRead)
    ensures |labels| <= |r.labels| <= |labels| + |lines| && r.labels[..|labels|] == labels
    decreases |lines|
  {
    if |lines| == 0 then OutputRead(labels, outputName, None)
    else match ParseLine(lines[0], fileNamePrefix, floatOf)
      case Malformed(e) => OutputRead(labels, outputName, Some(e))
      case Ignored => ReadLines(labels, outputName, lines[1..], fileNamePrefix, floatOf)
      case OutputName(n) => ReadLines(labels, Some(n), lines[1..], fileNamePrefix, floatOf)
      case TagRead(t) =>
        var r := ReadLines(labels + [t], outputName, lines[1..], fileNamePrefix, floatOf);
        assert r.labels[..|labels|] == (r.labels[..|labels| + 1])[..|labels|];
        r
  }

  /** Reading from line i on is reading line i and then the lines after it. */
  lemma ReadLinesStep(labels: seq<Tag>, outputName: Option<string>, lines: seq<string>, i: nat, kind: LineKind,
                      fileNamePrefix: string, floatOf: string -> Option<real>)
    requires i < |lines| && kind == ParseLine(lines[i], fileNamePrefix, floatOf)
    ensures kind.Malformed? ==>
      ReadLines(labels, outputName, lines[i..], fileNamePrefix, floatOf) == OutputRead(labels, outputName, Some(kind.error))
    ensures kind.Ignored? ==>
      ReadLines(labels, outputName, lines[i..], fileNamePrefix, floatOf) == ReadLines(labels, outputName, lines[i + 1..], fileNamePrefix, floatOf)
    ensures kind.OutputName? ==>
      ReadLines(labels, outputName, lines[i..], fileNamePrefix, floatOf) == ReadLines(labels, Some(kind.name), lines[i + 1..], fileNamePrefix, floatOf)
    ensures kind.TagRead? ==>
      ReadLines(labels, outputName, lines[i..], fileNamePrefix, floatOf) == ReadLines(labels + [kind.tag], outputName, lines[i + 1..], fileNamePrefix, floatOf)
  {
    assert lines[i..][0] == lines[i];
    assert lines[i..][1..] == lines[i + 1..];
  }

  /** The tags, in order, of a sequence of well-formed lines. */
  function TagsOf(lines: seq<string>, fileNamePrefix: string, floatOf: string -> Option<real>): seq<Tag> {
    if |lines| == 0 then []
    else match ParseLine(lines[0], fileNamePrefix, floatOf)
      case TagRead(t) => [t] + TagsOf(lines[1..], fileNamePrefix, floatOf)
      case _ => TagsOf(lines[1..], fileNamePrefix, floatOf)
  }

  /** No line of the file is malformed. */
  predicate WellFormedLines(lines: seq<string>, fileNamePrefix: string, floatOf: string -> Option<real>) {
    forall i :: 0 <= i < |lines| ==> !ParseLine(lines[i], fileNamePrefix, floatOf).Malformed?
  }

  lemma WellFormedTail(lines: seq<string>, fileNamePrefix: string, floatOf: string -> Option<real>)
    requires |lines| > 0 && WellFormedLines(lines, fileNamePrefix, floatOf)
    ensures !ParseLine(lines[0], fileNamePrefix, floatOf).Malformed? && WellFormedLines(lines[1..], fileNamePrefix, floatOf)
  {
    assert forall i :: 0 <= i < |lines| - 1 ==> lines[1..][i] == lines[i + 1];
  }

  /** Without a malformed line, every tag line adds its tag, in order, and nothing else does. */
  lemma {:induction false} ReadLinesTags(labels: seq<Tag>, outputName: Option<string>, lines: seq<string>,
                                         fileNamePrefix: string, floatOf: string -> Option<real>)
    requires WellFormedLines(lines, fileNamePrefix, floatOf)
    ensures ReadLines(labels, outputName, lines, fileNamePrefix, floatOf)
         == OutputRead(labels + TagsOf(lines, fileNamePrefix, floatOf),
                       ReadLines(labels, outputName, lines, fileNamePrefix, floatOf).outputName, None)
    decreases |lines|
  {
    if |lines| == 0 {
      assert labels + [] == labels;
    } else {
      var k := ParseLine(lines[0], fileNamePrefix, floatOf);
      var head: seq<Tag> := if k.TagRead? then [k.tag] else [];
      var rest := lines[1..];
      WellFormedTail(lines, fileNamePrefix, floatOf);
      ReadLinesHead(labels, outputName, lines, fileNamePrefix, floatOf);
      var name := if k.OutputName? then Some(k.name) else outputName;
      ReadLinesTags(labels + head, name, rest, fileNamePrefix, floatOf);
      ChainRead(ReadLines(labels, outputName, lines, fileNamePrefix, floatOf), ReadLines(labels + head, name, rest, fileNamePrefix, floatOf),
                labels, head, TagsOf(lines, fileNamePrefix, floatOf), TagsOf(rest, fileNamePrefix, floatOf));
    }
  }

  lemma ChainRead(r: OutputRead, r2: OutputRead, labels: seq<Tag>, head: seq<Tag>, tags: seq<Tag>, tagsRest: seq<Tag>)
    requires r == r2 && tags == head + tagsRest
    requires r2 == OutputRead(labels + head + tagsRest, r2.outputName, None)
    ensures r == OutputRead(labels + tags, r.outputName, None)
  {
    assert labels + head + tagsRest == labels + (head + tagsRest);
  }

  /** One well-formed line: a tag line adds its tag, an output-name line sets the name. */
  lemma ReadLinesHead(labels: seq<Tag>, outputName: Option<string>, lines: seq<string>,
                      fileNamePrefix: string, floatOf: string -> Option<real>)
    requires |lines| > 0 && !ParseLine(lines[0], fileNamePrefix, floatOf).Malformed?
    ensures var k := ParseLine(lines[0], fileNamePrefix, floatOf);
      var head: seq<Tag> := if k.TagRead? then [k.tag] else [];
      ReadLines(labels, outputName, lines, fileNamePrefix, floatOf)
        == ReadLines(labels + head, if k.OutputName? then Some(k.name) else outputName, lines[1..], fileNamePrefix, floatOf)
      && TagsOf(lines, fileNamePrefix, floatOf) == head + TagsOf(lines[1..], fileNamePrefix, floatOf)
  {
    var k := ParseLine(lines[0], fileNamePrefix, floatOf);
    if !k.TagRead? {
      assert labels + [] == labels;
      assert [] + TagsOf(lines[1..], fileNamePrefix, floatOf) == TagsOf(lines[1..], fileNamePrefix, floatOf);
    }
  }

  /** `float(row["uptime"])`. */
  function Uptime(row: Row, floatOf: string -> Option<real>): (r: Result<real>)
    ensures r.Ok? <==> "uptime" in row && (row["uptime"].Num? || (row["uptime"].Str? && floatOf(row["uptime"].s).Some?))
    ensures "uptime" in row && row["uptime"].Num? ==> r == Ok(row["uptime"].x)
  {
    if "uptime" !in row then Err(KeyError("uptime"))
    else match row["uptime"]
      case Num(x) => Ok(x)
      case Str(s) =>
        (match floatOf(s)
         case None => Err(ValueError("could not convert string to float: '" + s + "'"))
         case Some(x) => Ok(x))
      case Null => Err(TypeError("float() argument must be a string or a real number, not 'NoneType'"))
  }

  predicate AllParse(rows: seq<Row>, floatOf: string -> Option<real>) {
    forall i :: 0 <= i < |rows| ==> Uptime(rows[i], floatOf).Ok?
  }

  lemma AllParseSnoc(rows: seq<Row>, row: Row, floatOf: string -> Option<real>)
    requires AllParse(rows, floatOf) && Uptime(row, floatOf).Ok?
    ensures AllParse(rows + [row], floatOf)
  {
    forall i | 0 <= i < |rows| + 1 ensures Uptime((rows + [row])[i], floatOf).Ok? {
      if i < |rows| { assert (rows + [row])[i] == rows[i]; }
    }
  }

  /** The exception `float(row["uptime"])` raises on the first row where it fails. */
  function FirstUptimeError(rows: seq<Row>, floatOf: string -> Option<real>): (e: Option<Error>)
    ensures e.None? <==> AllParse(rows, floatOf)
  {
    if |rows| == 0 then None
    else match Uptime(rows[0], floatOf)
      case Err(e) => Some(e)
      case Ok(_) =>
        var e := FirstUptimeError(rows[1..], floatOf);
        assert AllParse(rows[1..], floatOf) <==> AllParse(rows, floatOf) by {
          assert forall i :: 1 <= i < |rows| ==> rows[i] == rows[1..][i - 1];
        }
        e
  }

  /** Row i is the first whose uptime fails, and it fails with e. */
  predicate FailsFirstAt(rows: seq<Row>, floatOf: string -> Option<real>, i: int, e: Error) {
    0 <= i < |rows| && Uptime(rows[i], floatOf) == Err(e)
    && forall j :: 0 <= j < i ==> Uptime(rows[j], floatOf).Ok?
  }

  lemma FailsFirstShift(rows: seq<Row>, floatOf: string -> Option<real>, i: int, e: Error)
    requires |rows| > 0 && Uptime(rows[0], floatOf).Ok? && FailsFirstAt(rows[1..], floatOf, i, e)
    ensures FailsFirstAt(rows, floatOf, i + 1, e)
  {
    assert forall j :: 1 <= j < i + 1 ==> rows[j] == rows[1..][j - 1];
  }

  /** The error is that of a row whose uptime fails after rows whose uptimes parse. */
  lemma {:induction false} FirstUptimeErrorWitness(rows: seq<Row>, floatOf: string -> Option<real>)
    requires FirstUptimeError(rows, floatOf).Some?
    ensures exists i :: FailsFirstAt(rows, floatOf, i, FirstUptimeError(rows, floatOf).value)
  {
    var e := FirstUptimeError(rows, floatOf).value;
    if Uptime(rows[0], floatOf).Ok? {
      FirstUptimeErrorWitness(rows[1..], floatOf);
      var i :| FailsFirstAt(rows[1..], floatOf, i, e);
      FailsFirstShift(rows, floatOf, i, e);
    } else {
      assert FailsFirstAt(rows, floatOf, 0, e);
    }
  }

  function Dist(a: real, b: real): (d: real)
    ensures d >= 0.0 && (d == a - b || d == b - a)
  {
    if a >= b then a - b else b - a
  }

  /** The row `min(rows, key=lambda row: abs(float(row["uptime"]) - t))` picks. */
  function ClosestIndex(rows: seq<Row>, t: real, floatOf: string -> Option<real>): (i: nat)
    requires |rows| > 0 && AllParse(rows, floatOf)
    ensures i < |rows|
    decreases |rows|
  {
    if |rows| == 1 then 0
    else
      var init := rows[..|rows| - 1];
      assert AllParse(init, floatOf) by {
        assert forall j :: 0 <= j < |init| ==> init[j] == rows[j];
      }
      var k := ClosestIndex(init, t, floatOf);
      assert init[k] == rows[k];
      if Dist(Uptime(rows[|rows| - 1], floatOf).value, t) < Dist(Uptime(rows[k], floatOf).value, t)
      then |rows| - 1
      else k
  }

  /** Row i is at least as close to t as every row, and strictly closer than every
      row before it. */
  predicate IsClosest(rows: seq<Row>, t: real, floatOf: string -> Option<real>, i: nat)
    requires AllParse(rows, floatOf) && i < |rows|
  {
    (forall j :: 0 <= j < |rows| ==>
      Dist(Uptime(rows[i], floatOf).value, t) <= Dist(Uptime(rows[j], floatOf).value, t))
    && (forall j :: 0 <= j < i ==>
      Dist(Uptime(rows[i], floatOf).value, t) < Dist(Uptime(rows[j], floatOf).value, t))
  }

  /** `min` picks a row with the least distance to t, and the first such row on a tie. */
  lemma {:induction false} ClosestIndexSpec(rows: seq<Row>, t: real, floatOf: string -> Option<real>)
    requires |rows| > 0 && AllParse(rows, floatOf)
    ensures IsClosest(rows, t, floatOf, ClosestIndex(rows, t, floatOf))
    decreases |rows|
  {
    if |rows| > 1 {
      var init := rows[..|rows| - 1];
      assert forall j :: 0 <= j < |init| ==> init[j] == rows[j];
      assert AllParse(init, floatOf);
      ClosestIndexSpec(init, t, floatOf);
    }
  }

  /** The labelled duplicate appended for a tag: the closest row with its uptime set
      to the tag time and its label to the tag. */
  function LabelledCopy(rows: seq<Row>, tag: Tag, floatOf: string -> Option<real>): (row: Row)
    requires |rows| > 0 && AllParse(rows, floatOf)
    ensures Uptime(row, floatOf) == Ok(tag.time) && "label" in row && row["label"] == Str(tag.name)
  {
    rows[ClosestIndex(rows, tag.time, floatOf)]["uptime" := Num(tag.time)]["label" := Str(tag.name)]
  }

  /** The rows after `_assign_labels` has handled `tags`, one after the other. */
  function Assigned(rows: seq<Row>, tags: seq<Tag>, floatOf: string -> Option<real>): (r: seq<Row>)
    requires |tags| == 0 || (|rows| > 0 && AllParse(rows, floatOf))
    ensures |r| == |rows| + |tags|
    ensures |tags| > 0 ==> AllParse(r, floatOf)
    decreases |tags|
  {
    if |tags| == 0 then rows
    else
      var prev := Assigned(rows, tags[..|tags| - 1], floatOf);
      assert |prev| > 0 && AllParse(prev, floatOf) by {
        if |tags| == 1 { assert prev == rows; }
      }
      var copy := LabelledCopy(prev, tags[|tags| - 1], floatOf);
      AllParseSnoc(prev, copy, floatOf);
      prev + [copy]
  }

  /** Handling the first j tags gives the first |rows| + j rows of handling them all. */
  lemma {:induction false} AssignedPrefix(rows: seq<Row>, tags: seq<Tag>, floatOf: string -> Option<real>, j: nat)
    requires |rows| > 0 && AllParse(rows, floatOf) && j <= |tags|
    ensures Assigned(rows, tags, floatOf)[..|rows| + j] == Assigned(rows, tags[..j], floatOf)
    decreases |tags|
  {
    if j < |tags| {
      var init := tags[..|tags| - 1];
      PrefixOfPrefix(tags, init, j);
      AssignedPrefix(rows, init, floatOf, j);
      AssignedSnoc(rows, tags, floatOf);
      PrefixChain(Assigned(rows, tags, floatOf), Assigned(rows, init, floatOf), Assigned(rows, init[..j], floatOf),
                  Assigned(rows, tags[..j], floatOf), |rows| + j);
    } else {
      assert tags[..j] == tags;
    }
  }

  /** The last tag appends the labelled copy of the closest row among those present. */
  lemma AssignedLast(rows: seq<Row>, tags: seq<Tag>, floatOf: string -> Option<real>)
    requires |rows| > 0 && AllParse(rows, floatOf) && |tags| > 0
    ensures var prev := Assigned(rows, tags[..|tags| - 1], floatOf);
      |prev| > 0 && AllParse(prev, floatOf)
      && Assigned(rows, tags, floatOf) == prev + [LabelledCopy(prev, tags[|tags| - 1], floatOf)]
  {
    if |tags| == 1 {
      assert tags[..0] == [];
    }
  }

  /** One more tag: the rows after i tags, plus the copy for tag i. */
  lemma AssignedNext(rows: seq<Row>, tags: seq<Tag>, floatOf: string -> Option<real>, i: nat, cur: seq<Row>)
    requires |rows| > 0 && AllParse(rows, floatOf) && i < |tags|
    requires cur == Assigned(rows, tags[..i], floatOf)
    ensures |cur| > 0 && AllParse(cur, floatOf)
    ensures Assigned(rows, tags[..i + 1], floatOf) == cur + [LabelledCopy(cur, tags[i], floatOf)]
  {
    TakeNext(tags, i);
    AssignedLast(rows, tags[..i + 1], floatOf);
  }

  lemma TakeNext<T>(s: seq<T>, i: nat)
    requires i < |s|
    ensures |s[..i + 1]| == i + 1 && s[..i + 1][..i] == s[..i] && s[..i + 1][i] == s[i]
  {
  }

  lemma AssignedSnoc(rows: seq<Row>, tags: seq<Tag>, floatOf: string -> Option<real>)
    requires |rows| > 0 && AllParse(rows, floatOf) && |tags| > 0
    ensures Assigned(rows, tags, floatOf)[..|rows| + |tags| - 1] == Assigned(rows, tags[..|tags| - 1], floatOf)
  {
    AssignedLast(rows, tags, floatOf);
    var prev := Assigned(rows, tags[..|tags| - 1], floatOf);
    SnocPrefix(Assigned(rows, tags, floatOf), prev, LabelledCopy(prev, tags[|tags| - 1], floatOf));
  }

  lemma SnocPrefix<T>(a: seq<T>, b: seq<T>, x: T)
    requires a == b + [x]
    ensures a[..|b|] == b && a[|b|] == x
  {
  }

  lemma PrefixChain<T>(a: seq<T>, b: seq<T>, c: seq<T>, d: seq<T>, n: nat)
    requires n <= |b| <= |a| && a[..|b|] == b && b[..n] == c && c == d
    ensures a[..n] == d
  {
    PrefixOfPrefix(a, b, n);
  }

  lemma PrefixOfPrefix<T>(a: seq<T>, b: seq<T>, n: nat)
    requires n <= |b| <= |a| && a[..|b|] == b
    ensures a[..n] == b[..n]
  {
    assert forall i :: 0 <= i < n ==> a[..n][i] == a[..|b|][i];
  }

  /** Each tag adds exactly one row, in tag order, and that row is the labelled copy
      of the closest row among all rows present at that moment, earlier copies included;
      the rows read from the file stay first. */
  lemma AssignedAppends(rows: seq<Row>, tags: seq<Tag>, floatOf: string -> Option<real>, k: nat)
    requires |rows| > 0 && AllParse(rows, floatOf) && k < |tags|
    ensures Assigned(rows, tags, floatOf)[..|rows|] == rows
    ensures CopiedAt(Assigned(rows, tags, floatOf), |rows| + k, tags[k], floatOf)
  {
    AssignedKeepsRows(rows, tags, floatOf);
    AssignedCopied(rows, tags, floatOf, k);
  }

  /** The rows read from the file stay first. */
  lemma AssignedKeepsRows(rows: seq<Row>, tags: seq<Tag>, floatOf: string -> Option<real>)
    requires |rows| > 0 && AllParse(rows, floatOf)
    ensures Assigned(rows, tags, floatOf)[..|rows|] == rows
  {
    AssignedPrefix(rows, tags, floatOf, 0);
    assert tags[..0] == [];
  }

  /** Row n of r is the copy for the tag, made from the n rows before it. */
  predicate CopiedAt(r: seq<Row>, n: nat, tag: Tag, floatOf: string -> Option<real>) {
    0 < n < |r| && AllParse(r[..n], floatOf) && r[n] == LabelledCopy(r[..n], tag, floatOf)
  }

  /** Row |rows| + k is the copy for tag k, made from the rows before it. */
  lemma {:induction false} AssignedCopied(rows: seq<Row>, tags: seq<Tag>, floatOf: string -> Option<real>, k: nat)
    requires |rows| > 0 && AllParse(rows, floatOf) && k < |tags|
    ensures CopiedAt(Assigned(rows, tags, floatOf), |rows| + k, tags[k], floatOf)
    decreases |tags|
  {
    var init := tags[..|tags| - 1];
    AssignedLast(rows, tags, floatOf);
    var prev := Assigned(rows, init, floatOf);
    var copy := LabelledCopy(prev, tags[|tags| - 1], floatOf);
    if k < |tags| - 1 {
      AssignedCopied(rows, init, floatOf, k);
      CopiedAtSnoc(prev, Assigned(rows, tags, floatOf), copy, |rows| + k, tags[k], floatOf);
    } else {
      CopiedLast(prev, Assigned(rows, tags, floatOf), tags[k], floatOf);
    }
  }

  /** Appending a row keeps every earlier copy where it was. */
  lemma CopiedAtSnoc(prev: seq<Row>, r: seq<Row>, x: Row, n: nat, tag: Tag, floatOf: string -> Option<real>)
    requires r == prev + [x] && CopiedAt(prev, n, tag, floatOf)
    ensures CopiedAt(r, n, tag, floatOf)
  {
    assert r[..n] == prev[..n];
  }

  /** The appended copy sits right after the rows it was made from. */
  lemma CopiedLast(prev: seq<Row>, r: seq<Row>, tag: Tag, floatOf: string -> Option<real>)
    requires |prev| > 0 && AllParse(prev, floatOf) && r == prev + [LabelledCopy(prev, tag, floatOf)]
    ensures CopiedAt(r, |prev|, tag, floatOf)
  {
    assert r[..|prev|] == prev;
  }

  /** The rebased row: its uptime counted from the process creation time. */
  function Rebased(row: Row, creation: real, floatOf: string -> Option<real>): (r: Row)
    requires Uptime(row, floatOf).Ok?
    ensures Uptime(r, floatOf) == Ok(Uptime(row, floatOf).value - creation)
    ensures forall c :: c in row && c != "uptime" ==> c in r && r[c] == row[c]
  {
    row["uptime" := Num(Uptime(row, floatOf).value - creation)]
  }

  /** Rebasing keeps every difference between uptimes, so it keeps their order too. */
  lemma RebasedKeepsDifferences(a: Row, b: Row, creation: real, floatOf: string -> Option<real>)
    requires Uptime(a, floatOf).Ok? && Uptime(b, floatOf).Ok?
    ensures Uptime(Rebased(a, creation, floatOf), floatOf).value - Uptime(Rebased(b, creation, floatOf), floatOf).value
         == Uptime(a, floatOf).value - Uptime(b, floatOf).value
  {
  }

  /** `parse_energy_uj`: None for a missing value or a text that is blank or does
      not parse, otherwise the reading truncated toward zero by `int()`. */
  function ParseEnergyUj(value: Option<Cell>, floatOf: string -> Option<real>): (r: Option<int>)
    ensures value.None? || value == Some(Null) ==> r.None?
    ensures value.Some? && value.value.Num? ==> r == Some(TruncToInt(value.value.x))
  {
    match value
    case None => None
    case Some(Null) => None
    case Some(Num(x)) => Some(TruncToInt(x))
    case Some(Str(s)) =>
      var text := Strip(s);
      if text == "" then None
      else match floatOf(text)
        case None => None
        case Some(x) => Some(TruncToInt(x))
  }

  /** Python's `int(x)` on a float: truncation toward zero. */
  function TruncToInt(x: real): (n: int)
    ensures x >= 0.0 ==> n as real <= x < n as real + 1.0
    ensures x < 0.0 ==> n as real - 1.0 < x <= n as real
  {
    if x >= 0.0 then x.Floor else -((-x).Floor)
  }

  /** The energy reading of a row, `row.get("energy_consumed")` parsed. */
  function EnergyReading(row: Row, floatOf: string -> Option<real>): Option<int> {
    ParseEnergyUj(if "energy_consumed" in row then Some(row["energy_consumed"]) else None, floatOf)
  }

  /** The running state of `normalize_consumed_energy`: the previous parseable
      reading and the cumulative µJ so far. */
  datatype Meter = Meter(prev: Option<int>, cumulativeUj: real)

  function Step(m: Meter, reading: Option<int>, maxEnergyUj: real): (n: Meter)
    ensures reading.None? ==> n == m
    ensures reading.Some? ==> n.prev == reading
  {
    match reading
    case None => m
    case Some(cur) =>
      if m.prev.None? then Meter(Some(cur), m.cumulativeUj)
      else Meter(Some(cur), m.cumulativeUj + EnergyMeter.EnergyDelta(maxEnergyUj, m.prev.value as real, cur as real, EnergyMeter.MICRO))
  }

  /** The value, in joules, written into a row: 0.0 for the first parseable
      reading, otherwise the running total after this row. */
  function Stored(m: Meter, reading: Option<int>, maxEnergyUj: real): real {
    match reading
    case None => m.cumulativeUj / 1000000.0
    case Some(cur) =>
      if m.prev.None? then 0.0
      else Step(m, reading, maxEnergyUj).cumulativeUj / 1000000.0
  }

  /** The meter after the first `k` readings, starting with no reading and zero energy. */
  function After(readings: seq<Option<int>>, k: nat, maxEnergyUj: real): Meter
    requires k <= |readings|
  {
    if k == 0 then Meter(None, 0.0)
    else Step(After(readings, k - 1, maxEnergyUj), readings[k - 1], maxEnergyUj)
  }

  /** The joule values written along the uptime order. */
  function CumulativeEnergy(readings: seq<Option<int>>, maxEnergyUj: real): (js: seq<real>)
    ensures |js| == |readings|
  {
    seq(|readings|, k requires 0 <= k < |readings| => Stored(After(readings, k, maxEnergyUj), readings[k], maxEnergyUj))
  }

  /** The value written at position p and the meter after it, one reading at a time. */
  lemma CumulativeAt(readings: seq<Option<int>>, p: nat, maxEnergyUj: real)
    requires p < |readings|
    ensures CumulativeEnergy(readings, maxEnergyUj)[p] == Stored(After(readings, p, maxEnergyUj), readings[p], maxEnergyUj)
    ensures After(readings, p + 1, maxEnergyUj) == Step(After(readings, p, maxEnergyUj), readings[p], maxEnergyUj)
  {
  }

  /** One row of `normalize_consumed_energy`: a missing reading keeps the running
      total, the first reading starts it at zero, any later one adds the wrap-safe
      delta from the previous reading. */
  method Advance(prev: Option<int>, cumulative: real, reading: Option<int>, maxEnergyUj: real)
    returns (prev': Option<int>, cumulative': real, value: real)
    ensures Meter(prev', cumulative') == Step(Meter(prev, cumulative), reading, maxEnergyUj)
    ensures value == Stored(Meter(prev, cumulative), reading, maxEnergyUj)
  {
    prev', cumulative' := prev, cumulative;
    if reading.None? {
      value := cumulative / 1000000.0;
    } else if prev.None? {
      prev' := reading;
      value := 0.0;
    } else {
      cumulative' := cumulative + EnergyMeter.EnergyDelta(maxEnergyUj, prev.value as real, reading.value as real, EnergyMeter.MICRO);
      prev' := reading;
      value := cumulative' / 1000000.0;
    }
  }

  predicate InCounterRange(readings: seq<Option<int>>, maxEnergyUj: real) {
    forall k :: 0 <= k < |readings| && readings[k].Some? ==> 0.0 <= readings[k].value as real <= maxEnergyUj
  }

  /** Until the first parseable reading the total stays zero, and within the
      counter range it never goes negative. */
  lemma {:induction false} AfterShape(readings: seq<Option<int>>, k: nat, maxEnergyUj: real)
    requires k <= |readings| && InCounterRange(readings, maxEnergyUj)
    ensures After(readings, k, maxEnergyUj).prev.None? ==> After(readings, k, maxEnergyUj).cumulativeUj == 0.0
    ensures After(readings, k, maxEnergyUj).cumulativeUj >= 0.0
    ensures After(readings, k, maxEnergyUj).prev.Some? ==>
      0.0 <= After(readings, k, maxEnergyUj).prev.value as real <= maxEnergyUj
  {
    if k > 0 {
      AfterShape(readings, k - 1, maxEnergyUj);
      var m := After(readings, k - 1, maxEnergyUj);
      if m.prev.Some? && readings[k - 1].Some? {
        EnergyMeter.DeltaInRange(maxEnergyUj, m.prev.value as real, readings[k - 1].value as real, EnergyMeter.MICRO);
      }
    }
  }

  /** The value written at position k is the total after that row. */
  lemma StoredIsTotal(readings: seq<Option<int>>, k: nat, maxEnergyUj: real)
    requires k < |readings| && InCounterRange(readings, maxEnergyUj)
    ensures CumulativeEnergy(readings, maxEnergyUj)[k] == After(readings, k + 1, maxEnergyUj).cumulativeUj / 1000000.0
  {
    AfterShape(readings, k, maxEnergyUj);
  }

  lemma {:induction false} TotalMonotone(readings: seq<Option<int>>, k: nat, l: nat, maxEnergyUj: real)
    requires k <= l <= |readings| && InCounterRange(readings, maxEnergyUj)
    ensures After(readings, k, maxEnergyUj).cumulativeUj <= After(readings, l, maxEnergyUj).cumulativeUj
    decreases l - k
  {
    if k < l {
      TotalMonotone(readings, k, l - 1, maxEnergyUj);
      AfterShape(readings, l - 1, maxEnergyUj);
      var m := After(readings, l - 1, maxEnergyUj);
      if m.prev.Some? && readings[l - 1].Some? {
        EnergyMeter.DeltaInRange(maxEnergyUj, m.prev.value as real, readings[l - 1].value as real, EnergyMeter.MICRO);
      }
    }
  }

  /** Along the uptime order the cumulative energy never decreases when every
      reading lies within the counter range. */
  lemma CumulativeMonotone(readings: seq<Option<int>>, maxEnergyUj: real, i: nat, j: nat)
    requires i <= j < |readings| && InCounterRange(readings, maxEnergyUj)
    ensures 0.0 <= CumulativeEnergy(readings, maxEnergyUj)[i] <= CumulativeEnergy(readings, maxEnergyUj)[j]
  {
    var a := After(readings, i + 1, maxEnergyUj).cumulativeUj;
    var b := After(readings, j + 1, maxEnergyUj).cumulativeUj;
    assert 0.0 <= a <= b by {
      TotalMonotone(readings, i + 1, j + 1, maxEnergyUj);
      AfterShape(readings, i + 1, maxEnergyUj);
    }
    StoredIsTotal(readings, i, maxEnergyUj);
    StoredIsTotal(readings, j, maxEnergyUj);
    MicroToJoules(a, b);
  }

  lemma MicroToJoules(a: real, b: real)
    requires 0.0 <= a <= b
    ensures 0.0 <= a / 1000000.0 <= b / 1000000.0
  {
  }

  lemma {:induction false} AfterNoReading(readings: seq<Option<int>>, k: nat, maxEnergyUj: real)
    requires k <= |readings| && forall j :: 0 <= j < k ==> readings[j].None?
    ensures After(readings, k, maxEnergyUj) == Meter(None, 0.0)
  {
    if k > 0 { AfterNoReading(readings, k - 1, maxEnergyUj); }
  }

  lemma {:induction false} AfterSkipsMissing(readings: seq<Option<int>>, j: nat, k: nat, maxEnergyUj: real)
    requires j <= k <= |readings| && forall m :: j <= m < k ==> readings[m].None?
    ensures After(readings, k, maxEnergyUj) == After(readings, j, maxEnergyUj)
    decreases k - j
  {
    if j < k { AfterSkipsMissing(readings, j, k - 1, maxEnergyUj); }
  }

  /** The first parseable reading, and every row before it, is written as 0.0. */
  lemma CumulativeStartsAtZero(readings: seq<Option<int>>, maxEnergyUj: real, k: nat)
    requires k < |readings| && forall j :: 0 <= j < k ==> readings[j].None?
    ensures CumulativeEnergy(readings, maxEnergyUj)[k] == 0.0
  {
    AfterNoReading(readings, k, maxEnergyUj);
  }

  /** A missing or unparseable reading repeats the value of the row before it. */
  lemma CumulativeCarries(readings: seq<Option<int>>, maxEnergyUj: real, k: nat)
    requires 0 < k < |readings| && readings[k].None? && InCounterRange(readings, maxEnergyUj)
    ensures CumulativeEnergy(readings, maxEnergyUj)[k] == CumulativeEnergy(readings, maxEnergyUj)[k - 1]
  {
    StoredIsTotal(readings, k - 1, maxEnergyUj);
  }

  /** A parseable reading adds the wrap-safe delta from the previous parseable
      reading (in joules) to the value written for that reading. */
  lemma CumulativeAddsDelta(readings: seq<Option<int>>, maxEnergyUj: real, j: nat, k: nat)
    requires j < k < |readings| && readings[j].Some? && readings[k].Some?
    requires forall m :: j < m < k ==> readings[m].None?
    requires InCounterRange(readings, maxEnergyUj)
    ensures CumulativeEnergy(readings, maxEnergyUj)[k]
         == CumulativeEnergy(readings, maxEnergyUj)[j]
            + EnergyMeter.DeltaUj(maxEnergyUj, readings[j].value as real, readings[k].value as real) / 1000000.0
  {
    StoredIsTotal(readings, j, maxEnergyUj);
    AfterSkipsMissing(readings, j + 1, k, maxEnergyUj);
  }

  function Range(n: nat): (r: seq<nat>)
    ensures |r| == n && forall i :: 0 <= i < n ==> r[i] == i
  {
    seq(n, i requires 0 <= i < n => i)
  }

  /** The sort key of row `i`: its parsed uptime. */
  function UptimeKey(rows: seq<Row>, floatOf: string -> Option<real>): nat -> Key {
    (i: nat) => if i < |rows| then RowUptimeKey(floatOf)(rows[i]) else []
  }

  function RowUptimeKey(floatOf: string -> Option<real>): Row -> Key {
    (row: Row) => match Uptime(row, floatOf) case Ok(x) => [Num(x)] case Err(_) => []
  }

  /** The positions of the rows in stable ascending-uptime order. */
  function UptimeOrder(rows: seq<Row>, floatOf: string -> Option<real>): seq<nat> {
    SortBy(Range(|rows|), UptimeKey(rows, floatOf))
  }

  /** The readings taken in uptime order. */
  function ReadingsInOrder(rows: seq<Row>, order: seq<nat>, floatOf: string -> Option<real>): (rs: seq<Option<int>>)
    requires forall p :: 0 <= p < |order| ==> order[p] < |rows|
    ensures |rs| == |order|
  {
    seq(|order|, p requires 0 <= p < |order| => EnergyReading(rows[order[p]], floatOf))
  }

  lemma {:induction false} RangeCount(n: nat, v: nat)
    ensures multiset(Range(n))[v] == if v < n then 1 else 0
  {
    if n > 0 {
      assert Range(n) == Range(n - 1) + [n - 1];
      RangeCount(n - 1, v);
    } else {
      assert Range(0) == [];
    }
  }

  /** A reordering of 0..n-1 lists each position exactly once. */
  lemma PermutationOfRange(order: seq<nat>, n: nat)
    requires multiset(order) == multiset(Range(n))
    ensures |order| == n
    ensures forall p :: 0 <= p < |order| ==> order[p] < n
    ensures forall p, q :: 0 <= p < q < |order| ==> order[p] != order[q]
    ensures forall i :: 0 <= i < n ==> i in order
  {
    assert |order| == |multiset(order)| == |multiset(Range(n))| == n;
    forall p | 0 <= p < |order| ensures order[p] < n {
      assert order[p] in multiset(order);
      RangeCount(n, order[p]);
    }
    forall p, q | 0 <= p < q < |order| ensures order[p] != order[q] {
      var v := order[q];
      assert order == order[..q] + order[q..];
      assert order[..q][p] == order[p];
      assert order[q..][0] == v;
      assert multiset(order)[v] == multiset(order[..q])[v] + multiset(order[q..])[v];
      RangeCount(n, v);
      assert order[p] in multiset(order[..q]);
      assert v in multiset(order[q..]);
    }
    forall i | 0 <= i < n ensures i in order {
      RangeCount(n, i);
      assert i in multiset(order);
    }
  }

  /** `row.get(col, "")` for every file column. */
  function OrderedRow(row: Row, columns: seq<string>): (r: seq<Cell>)
    ensures |r| == |columns|
    ensures forall j :: 0 <= j < |columns| ==> r[j] == if columns[j] in row then row[columns[j]] else Str("")
  {
    seq(|columns|, j requires 0 <= j < |columns| => if columns[j] in row then row[columns[j]] else Str(""))
  }

  /** The output path: when an output name was read (and is not empty), "<name>_" is
      put before the last '/'-separated piece of the path. */
  function OutputPath(path: string, outputName: Option<string>): string {
    var parts := Split(path, "/");
    var last := parts[|parts| - 1];
    var fileName := if outputName.Some? && outputName.value != "" then outputName.value + "_" + last else last;
    Join(parts[..|parts| - 1] + [fileName], "/")
  }

  /** Replacing the last piece of a path split on '/' keeps the directory part. */
  lemma ReplaceLastPiece(parts: seq<string>, path: string, b: string, fileName: string)
    requires |parts| >= 1 && parts[|parts| - 1] == b && |b| <= |path|
    requires |parts| == 1 ==> path == b
    requires |parts| > 1 ==> path == Join(parts[..|parts| - 1], "/") + "/" + b
    ensures Join(parts[..|parts| - 1] + [fileName], "/") == path[..|path| - |b|] + fileName
  {
    var init := parts[..|parts| - 1];
    if |parts| > 1 {
      JoinSnoc(init, fileName, "/");
      assert path[..|path| - |b|] == Join(init, "/") + "/";
    } else {
      assert init + [fileName] == [fileName];
      assert path[..|path| - |b|] == "";
    }
  }

  /** Only the file name changes: the directory part stays and the name gets the prefix. */
  lemma OutputPathShape(path: string, outputName: Option<string>)
    ensures var b := Basename(path);
      var prefix := if outputName.Some? && outputName.value != "" then outputName.value + "_" else "";
      OutputPath(path, outputName) == path[..|path| - |b|] + prefix + b
  {
    var prefix := if outputName.Some? && outputName.value != "" then outputName.value + "_" else "";
    var b := Basename(path);
    SplitBasename(path);
    PrefixedLastPiece(path, outputName, prefix, Split(path, "/"), b);
  }

  /** The output path of a path whose last '/'-piece is b. */
  lemma PrefixedLastPiece(path: string, outputName: Option<string>, prefix: string, parts: seq<string>, b: string)
    requires prefix == if outputName.Some? && outputName.value != "" then outputName.value + "_" else ""
    requires parts == Split(path, "/") && parts[|parts| - 1] == b && |b| <= |path|
    requires |parts| == 1 ==> path == b
    requires |parts| > 1 ==> path == Join(parts[..|parts| - 1], "/") + "/" + b
    ensures OutputPath(path, outputName) == path[..|path| - |b|] + prefix + b
  {
    OutputPathPieces(path, outputName, parts, b, prefix);
    ReplaceLastPiece(parts, path, b, prefix + b);
    PrefixedName(OutputPath(path, outputName), path[..|path| - |b|], prefix, b);
  }

  /** The output path joins the directory pieces and the prefixed last piece. */
  lemma OutputPathPieces(path: string, outputName: Option<string>, parts: seq<string>, b: string, prefix: string)
    requires parts == Split(path, "/") && parts[|parts| - 1] == b
    requires prefix == if outputName.Some? && outputName.value != "" then outputName.value + "_" else ""
    ensures OutputPath(path, outputName) == Join(parts[..|parts| - 1] + [prefix + b], "/")
  {
    if prefix == "" {
      assert prefix + b == b;
    }
  }

  lemma PrefixedName(out: string, dir: string, prefix: string, b: string)
    requires out == dir + (prefix + b)
    ensures out == dir + prefix + b
  {
  }

  /** Without an output name the path is kept as it is. */
  lemma OutputPathUnnamed(path: string)
    ensures OutputPath(path, None) == path
  {
    OutputPathShape(path, None);
    SplitAtSuffix(path, Basename(path));
  }

  lemma SplitAtSuffix(s: string, b: string)
    requires EndsWith(s, b)
    ensures s == s[..|s| - |b|] + "" + b
  {
    assert s == s[..|s| - |b|] + s[|s| - |b|..];
  }

  /** What `run` writes: the path and the records of the CSV file. */
  datatype CsvOutput = CsvOutput(path: string, records: seq<seq<Cell>>)

  /** The rows after `_update_uptime`: every uptime counted from the creation time. */
  function RebasedAll(rows: seq<Row>, creation: real, floatOf: string -> Option<real>): (r: seq<Row>)
    requires AllParse(rows, floatOf)
    ensures |r| == |rows| && AllParse(r, floatOf)
    ensures forall i :: 0 <= i < |rows| ==> Uptime(r[i], floatOf) == Ok(Uptime(rows[i], floatOf).value - creation)
  {
    seq(|rows|, i requires 0 <= i < |rows| => Rebased(rows[i], creation, floatOf))
  }

  /** The place at which `order` lists `i`. */
  function PositionIn(order: seq<nat>, i: nat): (p: nat)
    requires i in order
    ensures p < |order| && order[p] == i
  {
    if order[0] == i then 0 else 1 + PositionIn(order[1..], i)
  }

  /** In a list without repeats, the entry at place p is found at p. */
  lemma {:induction false} PositionOfListed(order: seq<nat>, p: nat)
    requires p < |order| && forall q, q' :: 0 <= q < q' < |order| ==> order[q] != order[q']
    ensures PositionIn(order, order[p]) == p
  {
    if p > 0 {
      assert order[0] != order[p];
      assert order[1..][p - 1] == order[p];
      PositionOfListed(order[1..], p - 1);
    }
  }

  /** Rows in another order parse exactly when they did before. */
  lemma AllParsePermutation(a: seq<Row>, b: seq<Row>, floatOf: string -> Option<real>)
    requires multiset(a) == multiset(b) && AllParse(a, floatOf)
    ensures AllParse(b, floatOf)
  {
    forall i | 0 <= i < |b| ensures Uptime(b[i], floatOf).Ok? {
      assert b[i] in multiset(a);
    }
  }

  /** A reordering of the positions lists every row exactly once. */
  lemma UptimeOrderPermutes(rows: seq<Row>, floatOf: string -> Option<real>)
    ensures var order := UptimeOrder(rows, floatOf);
      |order| == |rows| && (forall p :: 0 <= p < |order| ==> order[p] < |rows|)
      && (forall p, q :: 0 <= p < q < |order| ==> order[p] != order[q])
      && (forall i :: 0 <= i < |rows| ==> i in order)
  {
    PermutationOfRange(UptimeOrder(rows, floatOf), |rows|);
  }

  /** The rows after `normalize_consumed_energy`: in stable ascending-uptime order,
      each row's energy cell holds the cumulative joules up to it. */
  function Energised(rows: seq<Row>, maxEnergyUj: real, floatOf: string -> Option<real>): (r: seq<Row>)
    ensures |r| == |rows|
  {
    var order := UptimeOrder(rows, floatOf);
    UptimeOrderPermutes(rows, floatOf);
    var js := CumulativeEnergy(ReadingsInOrder(rows, order, floatOf), maxEnergyUj);
    seq(|rows|, i requires 0 <= i < |rows| => rows[i]["energy_consumed" := Num(js[PositionIn(order, i)])])
  }

  /** The row at place p of the uptime order gets the total after the p-th reading
      in that order; only the energy cell changes, so every uptime stays. */
  lemma EnergisedSpec(rows: seq<Row>, maxEnergyUj: real, floatOf: string -> Option<real>)
    ensures var r := Energised(rows, maxEnergyUj, floatOf);
      (forall i :: 0 <= i < |rows| ==> Uptime(r[i], floatOf) == Uptime(rows[i], floatOf))
      && var order := UptimeOrder(rows, floatOf);
      |order| == |rows| && (forall p :: 0 <= p < |order| ==> order[p] < |rows|)
      && var js := CumulativeEnergy(ReadingsInOrder(rows, order, floatOf), maxEnergyUj);
      forall p :: 0 <= p < |order| ==> r[order[p]] == rows[order[p]]["energy_consumed" := Num(js[p])]
  {
    var order := UptimeOrder(rows, floatOf);
    UptimeOrderPermutes(rows, floatOf);
    forall p | 0 <= p < |order| ensures PositionIn(order, order[p]) == p {
      PositionOfListed(order, p);
    }
  }

  /** The rows the loop of `normalize_consumed_energy` leaves are `Energised`. */
  lemma EnergisedIsWritten(before: seq<Row>, after: seq<Row>, maxEnergyUj: real, floatOf: string -> Option<real>)
    requires |after| == |before|
    requires var order := UptimeOrder(before, floatOf);
      |order| == |before| && (forall p :: 0 <= p < |order| ==> order[p] < |before|)
      && (forall i :: 0 <= i < |before| ==> i in order)
      && var js := CumulativeEnergy(ReadingsInOrder(before, order, floatOf), maxEnergyUj);
      forall p :: 0 <= p < |order| ==> after[order[p]] == before[order[p]]["energy_consumed" := Num(js[p])]
    ensures after == Energised(before, maxEnergyUj, floatOf)
  {
    var order := UptimeOrder(before, floatOf);
    EnergisedSpec(before, maxEnergyUj, floatOf);
    var r := Energised(before, maxEnergyUj, floatOf);
    forall i | 0 <= i < |before| ensures after[i] == r[i] {
      var p := PositionIn(order, i);
    }
  }

  /** The labelled rows parse exactly when the rows read do. */
  lemma AssignedParsesIfAny(records: seq<Row>, tags: seq<Tag>, floatOf: string -> Option<real>)
    requires |tags| == 0 || (|records| > 0 && AllParse(records, floatOf))
    ensures AllParse(Assigned(records, tags, floatOf), floatOf) <==> AllParse(records, floatOf)
  {
  }

  /** Labelled copies of parseable rows parse. */
  lemma AssignedParses(records: seq<Row>, tags: seq<Tag>, floatOf: string -> Option<real>)
    requires records != [] && AllParse(records, floatOf)
    ensures AllParse(Assigned(records, tags, floatOf), floatOf)
  {
  }

  /** The rows `run` writes: the records with their labelled copies, rebased to
      the creation time, with cumulative energy, in stable ascending-uptime order. */
  function CleanedRows(records: seq<Row>, tags: seq<Tag>, creation: real, maxEnergyUj: real,
                       floatOf: string -> Option<real>): (r: seq<Row>)
    requires records != [] && AllParse(records, floatOf)
  {
    AssignedParses(records, tags, floatOf);
    var rebased := RebasedAll(Assigned(records, tags, floatOf), creation, floatOf);
    SortBy(Energised(rebased, maxEnergyUj, floatOf), RowUptimeKey(floatOf))
  }

  /** The energised rows before the final sort parse, and sorting them gives the
      cleaned rows. */
  lemma CleanedRowsParse(records: seq<Row>, tags: seq<Tag>, creation: real, maxEnergyUj: real,
                         floatOf: string -> Option<real>)
    requires records != [] && AllParse(records, floatOf)
    ensures AllParse(Assigned(records, tags, floatOf), floatOf)
    ensures var e := Energised(RebasedAll(Assigned(records, tags, floatOf), creation, floatOf), maxEnergyUj, floatOf);
      e != [] && AllParse(e, floatOf) && SortBy(e, RowUptimeKey(floatOf)) == CleanedRows(records, tags, creation, maxEnergyUj, floatOf)
  {
    AssignedParses(records, tags, floatOf);
    EnergisedSpec(RebasedAll(Assigned(records, tags, floatOf), creation, floatOf), maxEnergyUj, floatOf);
  }

  /** The written rows are one per record and per tag, all with uptimes, in
      ascending-uptime order. */
  lemma CleanedRowsSpec(records: seq<Row>, tags: seq<Tag>, creation: real, maxEnergyUj: real,
                        floatOf: string -> Option<real>)
    requires records != [] && AllParse(records, floatOf)
    ensures var r := CleanedRows(records, tags, creation, maxEnergyUj, floatOf);
      |r| == |records| + |tags| && AllParse(r, floatOf) && SortedBy(r, RowUptimeKey(floatOf))
  {
    AssignedParses(records, tags, floatOf);
    var rebased := RebasedAll(Assigned(records, tags, floatOf), creation, floatOf);
    var energised := Energised(rebased, maxEnergyUj, floatOf);
    EnergisedSpec(rebased, maxEnergyUj, floatOf);
    assert AllParse(energised, floatOf);
    var sorted := SortBy(energised, RowUptimeKey(floatOf));
    SortByIsSorted(energised, RowUptimeKey(floatOf));
    SortByLength(energised, RowUptimeKey(floatOf));
    AllParsePermutation(energised, sorted, floatOf);
  }

  class StatsCleaner {
    const floatOf: string -> Option<real>
    /** PREFIX_MEASURE_TAG_FILE_NAME, whose value is not part of this model. */
    const fileNamePrefix: string
    var labels: seq<Tag>
    var rows: seq<Row>
    var fileColumns: seq<string>
    var outputCsvName: Option<string>

    constructor (floatOf: string -> Option<real>, fileNamePrefix: string)
      ensures this.floatOf == floatOf && this.fileNamePrefix == fileNamePrefix
      ensures labels == [] && rows == [] && fileColumns == [] && outputCsvName == None
    {
      this.floatOf := floatOf;
      this.fileNamePrefix := fileNamePrefix;
      labels := [];
      rows := [];
      fileColumns := [];
      outputCsvName := None;
    }

    /** `_read_program_output_file` over the printed lines. */
    method ReadProgramOutputFile(lines: seq<string>) returns (err: Option<Error>)
      modifies this`labels, this`outputCsvName
      ensures OutputRead(labels, outputCsvName, err)
           == ReadLines(old(labels), old(outputCsvName), lines, fileNamePrefix, floatOf)
    {
      var tags, name := labels, outputCsvName;
      var i := 0;
      while i < |lines|
        invariant 0 <= i <= |lines|
        invariant ReadLines(old(labels), old(outputCsvName), lines, fileNamePrefix, floatOf)
               == ReadLines(tags, name, lines[i..], fileNamePrefix, floatOf)
      {
        var kind := ParseLine(lines[i], fileNamePrefix, floatOf);
        ReadLinesStep(tags, name, lines, i, kind, fileNamePrefix, floatOf);
        match kind {
          case Malformed(e) =>
            labels, outputCsvName := tags, name;
            return Some(e);
          case Ignored =>
          case OutputName(n) => name := Some(n);
          case TagRead(t) => tags := tags + [t];
        }
        i := i + 1;
      }
      labels, outputCsvName := tags, name;
      return None;
    }

    /** `_read_stats_file` on the parsed CSV: the records become the rows and the
        header, plus "label", the file columns; an empty file fails on `rows[0]`. */
    method ReadStatsFile(header: seq<string>, records: seq<Row>) returns (err: Option<Error>)
      modifies this`rows, this`fileColumns
      ensures rows == records
      ensures err.Some? <==> records == []
      ensures err.Some? ==> err.value == IndexError("list index out of range") && fileColumns == old(fileColumns)
      ensures err.None? ==> fileColumns == header + ["label"]
    {
      rows := records;
      if |rows| == 0 {
        return Some(IndexError("list index out of range"));
      }
      fileColumns := header + ["label"];
      return None;
    }

    /** `_assign_labels`: one labelled copy of the closest row per tag, appended in
        tag order. `min` evaluates every row's uptime, so a bad uptime or an empty
        table stops the first tag, before anything is appended. */
    method AssignLabels() returns (err: Option<Error>)
      modifies this`rows
      ensures labels == [] ==> err.None? && rows == old(rows)
      ensures labels != [] && old(rows) == [] ==> err == Some(ValueError("min() arg is an empty sequence"))
      ensures labels != [] && old(rows) != [] ==> err == FirstUptimeError(old(rows), floatOf)
      ensures err.Some? ==> rows == old(rows)
      ensures err.None? && labels != [] ==> AllParse(old(rows), floatOf) && old(rows) != []
      ensures err.None? ==> rows == Assigned(old(rows), labels, floatOf)
    {
      var i := 0;
      while i < |labels|
        invariant 0 <= i <= |labels|
        invariant i > 0 ==> |old(rows)| > 0 && AllParse(old(rows), floatOf)
        invariant rows == Assigned(old(rows), labels[..i], floatOf)
      {
        if |rows| == 0 {
          return Some(ValueError("min() arg is an empty sequence"));
        }
        var bad := FirstUptimeError(rows, floatOf);
        if bad.Some? {
          return bad;
        }
        AssignedNext(old(rows), labels, floatOf, i, rows);
        rows := rows + [LabelledCopy(rows, labels[i], floatOf)];
        i := i + 1;
      }
      assert labels[..i] == labels;
      return None;
    }

    /** `_update_uptime`: every row, labelled copies included, gets its uptime minus
        the creation time; a row whose uptime does not parse stops the loop there. */
    method UpdateUptime(creation: real) returns (err: Option<Error>)
      modifies this`rows
      ensures |rows| == |old(rows)|
      ensures err == FirstUptimeError(old(rows), floatOf)
      ensures err.None? ==> forall i :: 0 <= i < |rows| ==> rows[i] == Rebased(old(rows)[i], creation, floatOf)
      ensures err.None? ==> AllParse(old(rows), floatOf) && rows == RebasedAll(old(rows), creation, floatOf)
      ensures err.Some? ==>
        exists k :: 0 <= k < |rows| && Uptime(old(rows)[k], floatOf).Err?
          && (forall i :: 0 <= i < k ==> Uptime(old(rows)[i], floatOf).Ok?)
          && (forall i :: 0 <= i < k ==> rows[i] == Rebased(old(rows)[i], creation, floatOf))
          && (forall i :: k <= i < |rows| ==> rows[i] == old(rows)[i])
    {
      var i := 0;
      while i < |rows|
        invariant 0 <= i <= |rows| && |rows| == |old(rows)|
        invariant forall j :: 0 <= j < i ==> Uptime(old(rows)[j], floatOf).Ok?
        invariant forall j :: 0 <= j < i ==> rows[j] == Rebased(old(rows)[j], creation, floatOf)
        invariant forall j :: i <= j < |rows| ==> rows[j] == old(rows)[j]
      {
        var u := Uptime(rows[i], floatOf);
        if u.Err? {
          FirstErrorAt(old(rows), i, floatOf);
          return Some(u.error);
        }
        rows := rows[i := Rebased(rows[i], creation, floatOf)];
        i := i + 1;
      }
      return None;
    }

    /** `normalize_consumed_energy`: the rows, taken in stable ascending-uptime
        order, get their energy cell rewritten as cumulative joules. No rows: nothing
        happens. `collector` is the outcome of `EnergyStatsCollector()` (see
        `EnergyMeter.OpenCollector`), built after the column is added; its error
        comes first, and a bad uptime then stops the sort before any energy value is
        written. */
    method NormalizeConsumedEnergy(collector: Result<EnergyMeter.Collector>) returns (err: Option<Error>)
      modifies this`rows, this`fileColumns
      ensures old(rows) == [] ==> err.None? && rows == old(rows) && fileColumns == old(fileColumns)
      ensures old(rows) != [] ==> fileColumns == (if "energy_consumed" in old(fileColumns) then old(fileColumns)
                                                 else old(fileColumns) + ["energy_consumed"])
      ensures old(rows) != [] ==> err == (if collector.Err? then Some(collector.error)
                                          else FirstUptimeError(old(rows), floatOf))
      ensures err.Some? ==> rows == old(rows)
      ensures |rows| == |old(rows)|
      ensures err.None? && old(rows) != [] ==>
        collector.Ok?
        && var order := UptimeOrder(old(rows), floatOf);
           |order| == |old(rows)| && (forall p :: 0 <= p < |order| ==> order[p] < |old(rows)|)
           && (forall i :: 0 <= i < |old(rows)| ==> i in order)
           && (var js := CumulativeEnergy(ReadingsInOrder(old(rows), order, floatOf), collector.value.maxEnergyUj as real);
               forall p :: 0 <= p < |order| ==> rows[order[p]] == old(rows)[order[p]]["energy_consumed" := Num(js[p])])
      ensures err.None? && old(rows) != [] ==>
        collector.Ok? && rows == Energised(old(rows), collector.value.maxEnergyUj as real, floatOf)
    {
      if |rows| == 0 {
        return None;
      }
      if "energy_consumed" !in fileColumns {
        fileColumns := fileColumns + ["energy_consumed"];
      }
      if collector.Err? {
        return Some(collector.error);
      }
      var maxEnergyUj := collector.value.maxEnergyUj as real;
      var bad := FirstUptimeError(rows, floatOf);
      if bad.Some? {
        return bad;
      }
      var order := UptimeOrder(rows, floatOf);
      PermutationOfRange(order, |rows|);
      WriteCumulative(order, maxEnergyUj);
      EnergisedIsWritten(old(rows), rows, maxEnergyUj, floatOf);
      return None;
    }

    /** The rows after `normalize_consumed_energy`'s loop over them in the given order. */
    method WriteCumulative(order: seq<nat>, maxEnergyUj: real)
      requires |order| == |rows| && forall p :: 0 <= p < |order| ==> order[p] < |rows|
      requires forall p, q :: 0 <= p < q < |order| ==> order[p] != order[q]
      modifies this`rows
      ensures |rows| == |old(rows)|
      ensures forall p :: 0 <= p < |order| ==>
        rows[order[p]] == old(rows)[order[p]]["energy_consumed" := Num(CumulativeEnergy(ReadingsInOrder(old(rows), order, floatOf), maxEnergyUj)[p])]
    {
      rows := CumulativeRows(rows, order, floatOf, maxEnergyUj);
    }

    /** `run` on a fresh cleaner: the first stage that raises decides the error;
        otherwise the table written holds the header of the file columns (the stats
        header, "label" and "energy_consumed") and the cleaned rows, each as its cells
        in column order, under the name the program output gave. `collector` is the
        outcome of `EnergyStatsCollector()`, which the energy stage builds. */
    method Run(outputCsvPath: string, creation: real, collector: Result<EnergyMeter.Collector>,
               lines: seq<string>, header: seq<string>, records: seq<Row>) returns (r: Result<CsvOutput>)
      requires labels == [] && rows == [] && fileColumns == [] && outputCsvName == None
      modifies this
      ensures var read := ReadLines([], None, lines, fileNamePrefix, floatOf);
        (read.error.Some? ==> r == Err(read.error.value))
        && (read.error.None? && records == [] ==> r == Err(IndexError("list index out of range")))
        && (read.error.None? && records != [] ==>
              (r.Err? <==> !AllParse(records, floatOf) || collector.Err?)
              && (!AllParse(records, floatOf) ==> r.Err? && FirstUptimeError(records, floatOf) == Some(r.error))
              && (AllParse(records, floatOf) && collector.Err? ==> r == Err(collector.error)))
      ensures r.Ok? ==> var read := ReadLines([], None, lines, fileNamePrefix, floatOf);
        records != [] && AllParse(records, floatOf) && collector.Ok?
        && labels == read.labels && outputCsvName == read.outputName
        && fileColumns == (if "energy_consumed" in header + ["label"] then header + ["label"]
                           else header + ["label", "energy_consumed"])
        && rows == CleanedRows(records, read.labels, creation, collector.value.maxEnergyUj as real, floatOf)
        && r.value.path == OutputPath(outputCsvPath, read.outputName)
        && |r.value.records| == |rows| + 1 && r.value.records[0] == CsvBuffer.Header(fileColumns)
        && (forall i :: 0 <= i < |rows| ==> r.value.records[i + 1] == OrderedRow(rows[i], fileColumns))
    {
      var e := ReadInputs(lines, header, records);
      match e {
        case Some(err) => r := Err(err);
        case None =>
          e := Clean(creation, collector);
          match e {
            case Some(err) => r := Err(err);
            case None => r := WriteCleaned(outputCsvPath, records, creation, collector.value.maxEnergyUj as real);
          }
      }
    }

    /** The start of `run` on a fresh cleaner: read the program output, then the
        stats records. */
    method ReadInputs(lines: seq<string>, header: seq<string>, records: seq<Row>) returns (err: Option<Error>)
      requires labels == [] && rows == [] && fileColumns == [] && outputCsvName == None
      modifies this
      ensures var read := ReadLines([], None, lines, fileNamePrefix, floatOf);
        err == (if read.error.Some? then read.error
                else if records == [] then Some(IndexError("list index out of range"))
                else None)
        && (err.None? ==> labels == read.labels && outputCsvName == read.outputName
                          && rows == records && fileColumns == header + ["label"])
    {
      err := ReadProgramOutputFile(lines);
      match err { case Some(_) => return; case None => }
      err := ReadStatsFile(header, records);
    }

    /** The middle of `run`: label, rebase and normalise the energy of the rows
        read. The first row whose uptime does not parse stops it; otherwise a
        collector that could not be built does. */
    method Clean(creation: real, collector: Result<EnergyMeter.Collector>) returns (err: Option<Error>)
      requires rows != []
      modifies this`rows, this`fileColumns
      ensures unchanged(this`labels, this`outputCsvName)
      ensures err == (if FirstUptimeError(old(rows), floatOf).Some? then FirstUptimeError(old(rows), floatOf)
                      else if collector.Err? then Some(collector.error)
                      else None)
      ensures err.None? ==>
        collector.Ok?
        && fileColumns == (if "energy_consumed" in old(fileColumns) then old(fileColumns)
                        else old(fileColumns) + ["energy_consumed"])
        && rows == Energised(RebasedAll(Assigned(old(rows), labels, floatOf), creation, floatOf),
                             collector.value.maxEnergyUj as real, floatOf)
    {
      err := AssignLabels();
      match err { case Some(_) => return; case None => }
      ghost var labelled := rows;
      AssignedParsesIfAny(old(rows), labels, floatOf);
      err := UpdateUptime(creation);
      match err { case Some(_) => return; case None => }
      err := NormalizeConsumedEnergy(collector);
    }

    /** The end of `run` after cleaning: the output name goes before the file name,
        and the cleaned rows are written sorted by uptime. */
    method WriteCleaned(outputCsvPath: string, ghost records: seq<Row>, creation: real, maxEnergyUj: real)
      returns (r: Result<CsvOutput>)
      requires records != [] && AllParse(records, floatOf) && fileColumns != []
      requires rows == Energised(RebasedAll(Assigned(records, labels, floatOf), creation, floatOf), maxEnergyUj, floatOf)
      modifies this`rows
      ensures unchanged(this`labels, this`outputCsvName, this`fileColumns)
      ensures r.Ok? && rows == CleanedRows(records, labels, creation, maxEnergyUj, floatOf)
        && r.value.path == OutputPath(outputCsvPath, outputCsvName)
        && |r.value.records| == |rows| + 1 && r.value.records[0] == CsvBuffer.Header(fileColumns)
        && (forall i :: 0 <= i < |rows| ==> r.value.records[i + 1] == OrderedRow(rows[i], fileColumns))
    {
      CleanedRowsParse(records, labels, creation, maxEnergyUj, floatOf);
      var path := OutputPath(outputCsvPath, outputCsvName);
      r := WriteSorted(path);
    }

    /** The end of `run`: the rows sorted by uptime, each as the list of its cells
        in file-column order, go to a fresh CSV buffer for `path`. */
    method WriteSorted(path: string) returns (r: Result<CsvOutput>)
      modifies this`rows
      ensures unchanged(this`labels, this`outputCsvName, this`fileColumns)
      ensures r.Ok? <==> old(rows) != [] && AllParse(old(rows), floatOf) && fileColumns != []
      ensures r.Ok? ==> rows == SortBy(old(rows), RowUptimeKey(floatOf)) && SortedBy(rows, RowUptimeKey(floatOf))
      ensures r.Ok? ==>
        r.value.path == path && |r.value.records| == |rows| + 1 && r.value.records[0] == CsvBuffer.Header(fileColumns)
        && (forall i :: 0 <= i < |rows| ==> r.value.records[i + 1] == OrderedRow(rows[i], fileColumns))
    {
      var bad := FirstUptimeError(rows, floatOf);
      if bad.Some? { return Err(bad.value); }
      var sorted := SortBy(rows, RowUptimeKey(floatOf));
      assert SortedBy(sorted, RowUptimeKey(floatOf)) by { SortByIsSorted(rows, RowUptimeKey(floatOf)); }
      rows := sorted;

      r := WriteRows(path, fileColumns, sorted);
    }
  }

  /** A fresh CSV buffer for `path` with the given columns, holding each row as the
      list of its cells in column order. */
  method WriteRows(path: string, cols: seq<string>, rs: seq<Row>) returns (r: Result<CsvOutput>)
    ensures r.Ok? <==> rs != [] && cols != []
    ensures r.Ok? ==>
      r.value.path == path && |r.value.records| == |rs| + 1 && r.value.records[0] == CsvBuffer.Header(cols)
      && (forall i :: 0 <= i < |rs| ==> r.value.records[i + 1] == OrderedRow(rs[i], cols))
  {
    var writer := new CsvBuffer.FileWriterCsv(path);
    var e := writer.SetColumns(cols);
    if e.Some? {
      // a fresh buffer holds no rows, so its columns can always be set
      assert false;
    }
    assert writer.columns == cols && writer.rows == [];
    var ordered := seq(|rs|, i requires 0 <= i < |rs| => OrderedRow(rs[i], cols));
    assert CsvBuffer.MatchingPrefix(ordered, |cols|) == |ordered| by { CsvBuffer.MatchingPrefixAll(ordered, |cols|); }
    e := writer.AppendRows(ordered);
    if e.Some? { return Err(e.value); }
    assert writer.rows == ordered;
    var out := writer.WriteToCsv();
    if out.Err? { return Err(out.error); }
    assert out.value == [CsvBuffer.Header(cols)] + ordered;
    return Ok(CsvOutput(path, out.value));
  }

  /** The loop of `normalize_consumed_energy`: visits the rows in the given order,
      keeping the previous parseable reading and the running total, and stores the
      total in each row it visits. */
  method CumulativeRows(orig: seq<Row>, order: seq<nat>, floatOf: string -> Option<real>, maxEnergyUj: real)
    returns (rs: seq<Row>)
    requires |order| == |orig| && forall p :: 0 <= p < |order| ==> order[p] < |orig|
    requires forall p, q :: 0 <= p < q < |order| ==> order[p] != order[q]
    ensures |rs| == |orig|
    ensures forall p :: 0 <= p < |order| ==>
      rs[order[p]] == orig[order[p]]["energy_consumed" := Num(CumulativeEnergy(ReadingsInOrder(orig, order, floatOf), maxEnergyUj)[p])]
  {
    ghost var readings := ReadingsInOrder(orig, order, floatOf);
    ghost var js := CumulativeEnergy(readings, maxEnergyUj);
    rs := orig;
    assert StoredUpTo(orig, rs, order, js, 0);
    var prev: Option<int> := None;
    var cumulative: real := 0.0;
    var p := 0;
    while p < |order|
      invariant 0 <= p <= |order| && |rs| == |orig|
      invariant Meter(prev, cumulative) == After(readings, p, maxEnergyUj)
      invariant StoredUpTo(orig, rs, order, js, p)
    {
      rs, prev, cumulative := VisitRow(orig, rs, order, floatOf, maxEnergyUj, p, prev, cumulative);
      p := p + 1;
    }
  }

  /** One pass of the loop: the row at position p of the order gets the total the
      meter gives for its reading. */
  method VisitRow(orig: seq<Row>, rs: seq<Row>, order: seq<nat>, floatOf: string -> Option<real>, maxEnergyUj: real,
                  p: nat, prev: Option<int>, cumulative: real)
    returns (rs': seq<Row>, prev': Option<int>, cumulative': real)
    requires p < |order| == |orig| == |rs| && forall q :: 0 <= q < |order| ==> order[q] < |orig|
    requires forall q, q' :: 0 <= q < q' < |order| ==> order[q] != order[q']
    requires Meter(prev, cumulative) == After(ReadingsInOrder(orig, order, floatOf), p, maxEnergyUj)
    requires StoredUpTo(orig, rs, order, CumulativeEnergy(ReadingsInOrder(orig, order, floatOf), maxEnergyUj), p)
    ensures |rs'| == |orig|
    ensures Meter(prev', cumulative') == After(ReadingsInOrder(orig, order, floatOf), p + 1, maxEnergyUj)
    ensures StoredUpTo(orig, rs', order, CumulativeEnergy(ReadingsInOrder(orig, order, floatOf), maxEnergyUj), p + 1)
  {
    ghost var readings := ReadingsInOrder(orig, order, floatOf);
    ghost var js := CumulativeEnergy(readings, maxEnergyUj);
    var i := order[p];
    var reading := EnergyReading(rs[i], floatOf);
    assert reading == readings[p] by { Unvisited(orig, rs, order, js, p, floatOf); }
    var value: real;
    prev', cumulative', value := Advance(prev, cumulative, reading, maxEnergyUj);
    assert value == js[p] && Meter(prev', cumulative') == After(readings, p + 1, maxEnergyUj) by {
      CumulativeAt(readings, p, maxEnergyUj);
    }
    rs' := rs[i := rs[i]["energy_consumed" := Num(value)]];
    StoreNext(orig, rs, rs', order, js, p);
  }

  /** The rows at the first p positions of the order hold their totals; the others
      are as they were. */
  ghost predicate StoredUpTo(orig: seq<Row>, rs: seq<Row>, order: seq<nat>, js: seq<real>, p: nat)
    requires |js| == |order| && p <= |order| && |rs| == |orig| && forall q :: 0 <= q < |order| ==> order[q] < |orig|
  {
    (forall q :: 0 <= q < p ==> rs[order[q]] == orig[order[q]]["energy_consumed" := Num(js[q])])
    && (forall q :: p <= q < |order| ==> rs[order[q]] == orig[order[q]])
  }

  lemma Unvisited(orig: seq<Row>, rs: seq<Row>, order: seq<nat>, js: seq<real>, p: nat, floatOf: string -> Option<real>)
    requires |js| == |order| && p < |order| && |rs| == |orig| && forall q :: 0 <= q < |order| ==> order[q] < |orig|
    requires StoredUpTo(orig, rs, order, js, p)
    ensures EnergyReading(rs[order[p]], floatOf) == ReadingsInOrder(orig, order, floatOf)[p]
  {
  }

  lemma StoreNext(orig: seq<Row>, rs: seq<Row>, rs': seq<Row>, order: seq<nat>, js: seq<real>, p: nat)
    requires |js| == |order| && p < |order| && |rs| == |orig| && forall q :: 0 <= q < |order| ==> order[q] < |orig|
    requires forall q, q' :: 0 <= q < q' < |order| ==> order[q] != order[q']
    requires StoredUpTo(orig, rs, order, js, p)
    requires rs' == rs[order[p] := rs[order[p]]["energy_consumed" := Num(js[p])]]
    ensures |rs'| == |orig| && StoredUpTo(orig, rs', order, js, p + 1)
  {
    forall q | 0 <= q < |order| && q != p ensures rs'[order[q]] == rs[order[q]] {
      assert order[q] != order[p] by {
        if q < p { } else { }
      }
    }
  }

  /** The first row whose uptime does not parse decides the exception. */
  lemma {:induction false} FirstErrorAt(rows: seq<Row>, i: nat, floatOf: string -> Option<real>)
    requires i < |rows| && Uptime(rows[i], floatOf).Err?
    requires forall j :: 0 <= j < i ==> Uptime(rows[j], floatOf).Ok?
    ensures FirstUptimeError(rows, floatOf) == Some(Uptime(rows[i], floatOf).error)
    decreases i
  {
    if i > 0 {
      assert forall j :: 0 <= j < i - 1 ==> rows[1..][j] == rows[j + 1];
      FirstErrorAt(rows[1..], i - 1, floatOf);
    }
  }
}
