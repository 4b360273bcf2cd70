/** The energy counter arithmetic of `EnergyStatsCollector`: the wrap-safe
    difference of two readings of the RAPL "psys" counter, converted to J, mJ or
    µJ, and the breadth-first search of the powercap zone tree for that zone.
    The sysfs tree is an input value; reading the counter itself is not modelled. */
module EnergyMeter {
  import opened Wrappers
  import opened Text

  /** The three output units of `energy_delta`. The enumeration is closed, so the
      "unsupported unit" error of the source cannot arise. */
  datatype EnergyUnit = UNIT | MILI | MICRO

  /** How many of the unit one microjoule is worth, inverted: J = µJ / 1e6, mJ = µJ / 1e3. */
  function Divisor(unit: EnergyUnit): (d: real)
    ensures d >= 1.0
  {
    match unit
    case UNIT => 1000000.0
    case MILI => 1000.0
    case MICRO => 1.0
  }

  /** The raw microjoule difference between two counter readings. A counter that
      went backwards wrapped at `maxEnergyUj` (the hardware's max_energy_range_uj). */
  function DeltaUj(maxEnergyUj: real, startUj: real, endUj: real): real {
    if endUj >= startUj then endUj - startUj
    else (maxEnergyUj - startUj) + endUj
  }

  /** `energy_delta`: the difference of two readings in the requested unit. */
  function EnergyDelta(maxEnergyUj: real, startUj: real, endUj: real, unit: EnergyUnit): (r: real)
    ensures r * Divisor(unit) == DeltaUj(maxEnergyUj, startUj, endUj)
  {
    DeltaUj(maxEnergyUj, startUj, endUj) / Divisor(unit)
  }

  /** Without a wrap, the delta is the plain difference; in particular a reading
      compared with itself gives zero. */
  lemma DeltaNoWrap(maxEnergyUj: real, startUj: real, endUj: real)
    requires endUj >= startUj
    ensures EnergyDelta(maxEnergyUj, startUj, endUj, MICRO) == endUj - startUj
    ensures EnergyDelta(maxEnergyUj, startUj, startUj, UNIT) == 0.0
  {
  }

  /** A reading below the previous one counts the rest of the range up to the
      maximum and then the new reading. */
  lemma DeltaWrap(maxEnergyUj: real, startUj: real, endUj: real)
    requires endUj < startUj
    ensures EnergyDelta(maxEnergyUj, startUj, endUj, MICRO) == (maxEnergyUj - startUj) + endUj
  {
  }

  /** For readings inside the counter range the delta is never negative and never
      more than the range, in every unit. */
  lemma DeltaInRange(maxEnergyUj: real, startUj: real, endUj: real, unit: EnergyUnit)
    requires 0.0 <= startUj <= maxEnergyUj && 0.0 <= endUj <= maxEnergyUj
    ensures 0.0 <= EnergyDelta(maxEnergyUj, startUj, endUj, unit) * Divisor(unit) <= maxEnergyUj
    ensures 0.0 <= EnergyDelta(maxEnergyUj, startUj, endUj, unit) <= maxEnergyUj
  {
    var r := EnergyDelta(maxEnergyUj, startUj, endUj, unit);
    var d := Divisor(unit);
    assert r * d == DeltaUj(maxEnergyUj, startUj, endUj);
    assert r * d <= maxEnergyUj;
    assert r * d >= 0.0;
    assert r == DeltaUj(maxEnergyUj, startUj, endUj) / d;
  }

  /** The unit conversions agree: J × 1000 = mJ and mJ × 1000 = µJ. */
  lemma UnitConversion(maxEnergyUj: real, startUj: real, endUj: real)
    ensures EnergyDelta(maxEnergyUj, startUj, endUj, UNIT) * 1000.0 == EnergyDelta(maxEnergyUj, startUj, endUj, MILI)
    ensures EnergyDelta(maxEnergyUj, startUj, endUj, MILI) * 1000.0 == EnergyDelta(maxEnergyUj, startUj, endUj, MICRO)
  {
  }

  /** A directory `intel-rapl:*` of the powercap tree: its path, the content of
      its `name` file (None when that file cannot be read) and its nested
      `intel-rapl:*` zones, in the order a glob lists them. */
  datatype Zone = Zone(path: string, name: Option<string>, children: seq<Zone>)

  /** The three paths `_locate_psys_zone` returns. */
  datatype ZoneFiles = ZoneFiles(zone: string, energyFile: string, maxEnergyFile: string)

  /** The zone's name, stripped and lower-cased; an unreadable name is "". */
  function ZoneName(z: Zone): string {
    match z.name
    case None => ""
    case Some(t) => Lower(Strip(t))
  }

  predicate IsPsys(z: Zone) {
    ZoneName(z) == "psys"
  }

  function FilesOf(z: Zone): (f: ZoneFiles)
    ensures f.zone == z.path
  {
    ZoneFiles(z.path, z.path + "/energy_uj", z.path + "/max_energy_range_uj")
  }

  function Size(z: Zone): nat
    decreases z, 1
  {
    1 + ForestSize(z.children)
  }

  function ForestSize(q: seq<Zone>): nat
    decreases q, 0
  {
    if |q| == 0 then 0 else Size(q[0]) + ForestSize(q[1..])
  }

  lemma {:induction false} ForestSizeAppend(a: seq<Zone>, b: seq<Zone>)
    ensures ForestSize(a + b) == ForestSize(a) + ForestSize(b)
    decreases |a|
  {
    if |a| == 0 {
      assert a + b == b;
    } else {
      assert (a + b)[1..] == a[1..] + b;
      ForestSizeAppend(a[1..], b);
    }
  }

  /** Taking the head zone off the queue and appending its children shrinks the
      total number of zones still to visit by one. */
  lemma PopShrinks(q: seq<Zone>)
    requires |q| > 0
    ensures ForestSize(q[1..] + q[0].children) == ForestSize(q) - 1
  {
    ForestSizeAppend(q[1..], q[0].children);
  }

  /** The order in which a first-in first-out queue visits the zones of a forest:
      level by level, siblings in glob order. */
  function BfsOrder(q: seq<Zone>): seq<Zone>
    decreases ForestSize(q)
  {
    if |q| == 0 then []
    else
      PopShrinks(q);
      [q[0]] + BfsOrder(q[1..] + q[0].children)
  }

  /** The first zone of `visits` that is the psys zone, or the RuntimeError of the source. */
  function FirstPsys(visits: seq<Zone>): (r: Result<ZoneFiles>)
    ensures r.Ok? <==> exists i :: 0 <= i < |visits| && IsPsys(visits[i])
    ensures r.Ok? ==> exists i :: 0 <= i < |visits| && IsPsys(visits[i]) && r.value == FilesOf(visits[i])
                        && forall j :: 0 <= j < i ==> !IsPsys(visits[j])
    ensures r.Err? ==> r.error == RuntimeError("PSys zone not found under /sys/class/powercap.")
  {
    if |visits| == 0 then Err(RuntimeError("PSys zone not found under /sys/class/powercap."))
    else if IsPsys(visits[0]) then Ok(FilesOf(visits[0]))
    else
      var r := FirstPsys(visits[1..]);
      assert forall i :: 1 <= i < |visits| ==> visits[i] == visits[1..][i - 1];
      if r.Ok? then
        assert exists i :: 0 <= i < |visits| && IsPsys(visits[i]) && r.value == FilesOf(visits[i])
                           && forall j :: 0 <= j < i ==> !IsPsys(visits[j]);
        r
      else r
  }

  /** The specification of `_locate_psys_zone`: the powercap root, when it exists,
      lists its top-level zones. */
  function LocateSpec(root: Option<seq<Zone>>): Result<ZoneFiles> {
    match root
    case None => Err(RuntimeError("RAPL sysfs path not found (/sys/class/powercap)."))
    case Some(top) => FirstPsys(BfsOrder(top))
  }

  /** `_locate_psys_zone`: a queue popped from the front, extended with the nested
      zones of every zone that is not the psys zone. */
  method LocatePsysZone(root: Option<seq<Zone>>) returns (r: Result<ZoneFiles>)
    ensures r == LocateSpec(root)
  {
    if root.None? {
      return Err(RuntimeError("RAPL sysfs path not found (/sys/class/powercap)."));
    }
    var queue := root.value;
    ghost var visited: seq<Zone> := [];
    while |queue| > 0
      invariant BfsOrder(root.value) == visited + BfsOrder(queue)
      invariant forall j :: 0 <= j < |visited| ==> !IsPsys(visited[j])
      decreases ForestSize(queue)
    {
      var zone := queue[0];
      queue := queue[1..];
      var name := match zone.name case None => "" case Some(t) => Lower(Strip(t));
      if name == "psys" {
        assert BfsOrder(root.value) == visited + ([zone] + BfsOrder(queue + zone.children));
        FirstPsysAfter(visited, [zone] + BfsOrder(queue + zone.children));
        return Ok(FilesOf(zone));
      }
      PopShrinks([zone] + queue);
      assert ([zone] + queue)[1..] == queue;
      visited := visited + [zone];
      queue := queue + zone.children;
    }
    assert BfsOrder(root.value) == visited + [];
    FirstPsysAfter(visited, []);
    return Err(RuntimeError("PSys zone not found under /sys/class/powercap."));
  }

  /** Zones that are not psys can be skipped when looking for the first psys zone. */
  lemma {:induction false} FirstPsysAfter(skipped: seq<Zone>, rest: seq<Zone>)
    requires forall j :: 0 <= j < |skipped| ==> !IsPsys(skipped[j])
    ensures FirstPsys(skipped + rest) == FirstPsys(rest)
    decreases |skipped|
  {
    if |skipped| > 0 {
      assert (skipped + rest)[1..] == skipped[1..] + rest;
      FirstPsysAfter(skipped[1..], rest);
    } else {
      assert skipped + rest == rest;
    }
  }

  /** Every zone in the queue is visited. */
  lemma {:induction false} BfsVisitsQueue(q: seq<Zone>, z: Zone)
    requires z in q
    ensures z in BfsOrder(q)
    decreases ForestSize(q)
  {
    if q[0] != z {
      PopShrinks(q);
      assert z in q[1..] + q[0].children;
      BfsVisitsQueue(q[1..] + q[0].children, z);
    }
  }

  /** The nested zones of every visited zone are visited too, so the search covers
      the whole tree below the powercap root. */
  lemma {:induction false} BfsVisitsChildren(q: seq<Zone>, z: Zone, c: Zone)
    requires z in BfsOrder(q) && c in z.children
    ensures c in BfsOrder(q)
    decreases ForestSize(q)
  {
    PopShrinks(q);
    var rest := q[1..] + q[0].children;
    if z == q[0] {
      BfsVisitsQueue(rest, c);
    } else {
      BfsVisitsChildren(rest, z, c);
    }
  }

  /** A zone tree with no psys zone anywhere makes the search fail; when one exists
      the search returns a psys zone and nothing visited before it was psys. */
  lemma LocateSpecOutcome(top: seq<Zone>)
    ensures LocateSpec(Some(top)).Err? <==> forall i :: 0 <= i < |BfsOrder(top)| ==> !IsPsys(BfsOrder(top)[i])
    ensures forall z :: z in top && IsPsys(z) ==> LocateSpec(Some(top)).Ok?
  {
    forall z | z in top && IsPsys(z) ensures LocateSpec(Some(top)).Ok? {
      BfsVisitsQueue(top, z);
    }
  }

  // ---------------------------------------------------------------------------
  // Construction

  /** What reading one sysfs file as text yields: its content, FileNotFoundError,
      or another exception, given by its message. */
  datatype FileRead = Contents(text: string) | NotFound | Fails(reason: string)

  /** `_read_int_file`: the stripped content as an integer (`intOf`, None where
      `int()` raises); a missing file, a failed read and a content that is not an
      integer each become a RuntimeError naming the path. */
  function ReadIntFile(path: string, read: FileRead, intOf: string -> Option<int>): (r: Result<int>)
    ensures r.Ok? <==> read.Contents? && intOf(Strip(read.text)).Some?
    ensures r.Ok? ==> r.value == intOf(Strip(read.text)).value
    ensures r.Err? ==> r.error.RuntimeError?
  {
    match read
    case NotFound => Err(RuntimeError("Required energy file not found: " + path))
    case Fails(reason) => Err(RuntimeError("Failed reading " + path + ": " + reason))
    case Contents(t) =>
      match intOf(Strip(t))
      case Some(n) => Ok(n)
      case None => Err(RuntimeError("Failed reading " + path + ": invalid literal for int() with base 10: '" + Strip(t) + "'"))
  }

  /** Every failure of `_read_int_file` names the file it could not read. */
  lemma ReadIntFileNamesPath(path: string, read: FileRead, intOf: string -> Option<int>)
    ensures ReadIntFile(path, read, intOf).Err? ==> Contains(ReadIntFile(path, read, intOf).error.msg, path)
  {
    var r := ReadIntFile(path, read, intOf);
    if r.Err? {
      var head := if read.NotFound? then "Required energy file not found: " else "Failed reading ";
      assert r.error.msg[|head|..|head| + |path|] == path;
      assert OccursAt(r.error.msg, path, |head|);
    }
  }

  /** What `EnergyStatsCollector()` keeps: the psys zone's files and the counter's
      wrap limit read from max_energy_range_uj. The open energy file handle is not
      modelled. */
  datatype Collector = Collector(files: ZoneFiles, maxEnergyUj: int)

  /** `EnergyStatsCollector.__init__`: locate the psys zone, open its energy file
      (`openFailure` is the message of an `open` that raises) and read the wrap
      limit (`maxRead` is what reading max_energy_range_uj yields). It succeeds
      exactly when all three do, and then holds that zone's files and that limit;
      every failure is a RuntimeError, and a failed search comes first. */
  function OpenCollector(root: Option<seq<Zone>>, openFailure: Option<string>, maxRead: FileRead,
                         intOf: string -> Option<int>): (r: Result<Collector>)
    ensures r.Ok? <==> LocateSpec(root).Ok? && openFailure.None? && maxRead.Contents? && intOf(Strip(maxRead.text)).Some?
    ensures r.Ok? ==> r.value == Collector(LocateSpec(root).value, intOf(Strip(maxRead.text)).value)
    ensures r.Err? ==> r.error.RuntimeError?
    ensures LocateSpec(root).Err? ==> r == Err(LocateSpec(root).error)
  {
    var files :- LocateSpec(root);
    if openFailure.Some? then Err(RuntimeError("Failed to open energy file " + files.energyFile + ": " + openFailure.value))
    else
      var maxUj :- ReadIntFile(files.maxEnergyFile, maxRead, intOf);
      Ok(Collector(files, maxUj))
  }

  /** Without the powercap directory, or with no psys zone anywhere below it, the
      collector cannot be built. */
  lemma OpenCollectorWithoutPsys(root: Option<seq<Zone>>, openFailure: Option<string>, maxRead: FileRead,
                                 intOf: string -> Option<int>)
    requires root.Some? ==> forall i :: 0 <= i < |BfsOrder(root.value)| ==> !IsPsys(BfsOrder(root.value)[i])
    ensures root.None? ==> OpenCollector(root, openFailure, maxRead, intOf)
                           == Err(RuntimeError("RAPL sysfs path not found (/sys/class/powercap)."))
    ensures root.Some? ==> OpenCollector(root, openFailure, maxRead, intOf)
                           == Err(RuntimeError("PSys zone not found under /sys/class/powercap."))
  {
    if root.Some? {
      LocateSpecOutcome(root.value);
    }
  }
}
