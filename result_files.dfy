/** The folder scan of the pandas result processor: which directory entries are
    result files (the name pattern `<id>_<type>_<records>_<date>_<time>_stats.csv`
    at the start of the name), what each yields (path, file type, record count),
    and the grouping of the files by scenario id in ascending id order. */
module ResultFiles {
  import opened Wrappers
  import opened Text
  import opened Ordering

  // ---------------------------------------------------------------------------
  // Character classes (ASCII)

  predicate IsDigit(c: char) {
    '0' <= c <= '9'
  }

  /** A regular-expression word character: a letter, a digit or `_`. */
  predicate IsWord(c: char) {
    IsDigit(c) || 'a' <= c <= 'z' || 'A' <= c <= 'Z' || c == '_'
  }

  predicate AllDigits(s: string) {
    forall k :: 0 <= k < |s| ==> IsDigit(s[k])
  }

  predicate AllWord(s: string) {
    forall k :: 0 <= k < |s| ==> IsWord(s[k])
  }

  /** Where the run of digits starting at `i` ends. */
  function DigitRunEnd(s: string, i: nat): (r: nat)
    requires i <= |s|
    ensures i <= r <= |s|
    ensures forall k :: i <= k < r ==> IsDigit(s[k])
    ensures r < |s| ==> !IsDigit(s[r])
    decreases |s| - i
  {
    if i < |s| && IsDigit(s[i]) then DigitRunEnd(s, i + 1) else i
  }

  /** Where the run of word characters starting at `i` ends. */
  function WordRunEnd(s: string, i: nat): (r: nat)
    requires i <= |s|
    ensures i <= r <= |s|
    ensures forall k :: i <= k < r ==> IsWord(s[k])
    ensures r < |s| ==> !IsWord(s[r])
    decreases |s| - i
  {
    if i < |s| && IsWord(s[i]) then WordRunEnd(s, i + 1) else i
  }

  // ---------------------------------------------------------------------------
  // The result-file name pattern

  const StatsSuffix: string := "_stats.csv"

  /** `_\d{8}_\d{6}_stats\.csv` at position `r`: the date, the time and the suffix. */
  predicate StampAt(s: string, r: nat) {
    r + 26 <= |s| && s[r] == '_'
    && (forall k :: r + 1 <= k < r + 9 ==> IsDigit(s[k]))
    && s[r + 9] == '_'
    && (forall k :: r + 10 <= k < r + 16 ==> IsDigit(s[k]))
    && s[r + 16..r + 26] == StatsSuffix
  }

  /** `_([0-9]+)` followed by the stamp at position `q`; the record count is the
      whole digit run, since a shorter one would be followed by a digit. */
  predicate TailAt(s: string, q: nat) {
    q < |s| && s[q] == '_' && DigitRunEnd(s, q + 1) > q + 1 && StampAt(s, DigitRunEnd(s, q + 1))
  }

  /** The backtracking of the greedy `(\w+)`: the largest end position `q'` in
      `[lo, q]` after which the rest of the pattern matches. */
  function LastTail(s: string, lo: nat, q: nat): (r: Option<nat>)
    requires q <= |s|
    ensures r.Some? ==> lo <= r.value <= q && TailAt(s, r.value)
    decreases q
  {
    if q < lo then None
    else if TailAt(s, q) then Some(q)
    else if q == 0 then None
    else LastTail(s, lo, q - 1)
  }

  /** `re.match` of `(\d+)_(\w+)_([0-9]+)_(\d{8})_(\d{6})_stats\.csv` against a
      file name: the scenario id, the file type and the record count as texts, or
      None. The match is anchored at the start only; text after the suffix is
      allowed. The greedy `(\d+)` cannot give back a digit and still meet the
      `_`, so the id is the whole leading digit run. */
  function Match(s: string): (r: Option<(string, string, string)>)
  {
    var p := DigitRunEnd(s, 0);
    if p == 0 || p >= |s| || s[p] != '_' then None
    else
      match LastTail(s, p + 2, WordRunEnd(s, p + 1))
      case None => None
      case Some(q) => Some((s[..p], s[p + 1..q], s[q + 1..DigitRunEnd(s, q + 1)]))
  }

  /** The reference reading of the pattern: the name is `id _ type _ records`
      followed by the stamp, with a non-empty digit id, a non-empty word type and
      a non-empty digit record count. */
  predicate StatsName(s: string, id: string, t: string, n: string) {
    |id| > 0 && |t| > 0 && |n| > 0 && AllDigits(id) && AllWord(t) && AllDigits(n)
    && |id| + |t| + |n| + 2 <= |s|
    && s[..|id| + |t| + |n| + 2] == id + "_" + t + "_" + n
    && StampAt(s, |id| + |t| + |n| + 2)
  }

  /** What the stamp covers: 22 word characters and then the `.` of `.csv`. */
  lemma StampWords(s: string, r: nat)
    requires StampAt(s, r)
    ensures forall k :: r <= k < r + 22 ==> IsWord(s[k])
    ensures !IsWord(s[r + 22])
  {
    forall k | r + 16 <= k < r + 22 ensures IsWord(s[k]) {
      assert s[k] == StatsSuffix[k - r - 16];
    }
    assert s[r + 22] == StatsSuffix[6];
  }

  /** A tail that starts inside a word run ends its record count 22 characters
      before the end of that run. */
  lemma TailEnd(s: string, a: nat, w: nat, q: nat)
    requires a <= q <= w <= |s| && TailAt(s, q)
    requires forall k :: a <= k < w ==> IsWord(s[k])
    requires w < |s| ==> !IsWord(s[w])
    ensures DigitRunEnd(s, q + 1) + 22 == w
  {
    var r := DigitRunEnd(s, q + 1);
    StampWords(s, r);
    assert forall k :: q <= k < r ==> IsWord(s[k]);
  }

  /** Inside one word run at most one position starts a tail. */
  lemma TailUnique(s: string, a: nat, w: nat, q1: nat, q2: nat)
    requires a <= q1 <= w && a <= q2 <= w && w <= |s| && TailAt(s, q1) && TailAt(s, q2)
    requires forall k :: a <= k < w ==> IsWord(s[k])
    requires w < |s| ==> !IsWord(s[w])
    ensures q1 == q2
  {
    TailEnd(s, a, w, q1);
    TailEnd(s, a, w, q2);
  }

  /** The backtracking finds any tail in its range (or a later one). */
  lemma {:induction false} LastTailFinds(s: string, lo: nat, q: nat, q0: nat)
    requires lo <= q0 <= q <= |s| && TailAt(s, q0)
    ensures LastTail(s, lo, q).Some? && q0 <= LastTail(s, lo, q).value
    decreases q
  {
    if q > q0 && !TailAt(s, q) {
      LastTailFinds(s, lo, q - 1, q0);
    }
  }

  /** A text cut at two underscores is the three pieces joined by them. */
  lemma CutAtTwo(s: string, p: nat, q: nat, r: nat)
    requires p < q < r <= |s| && s[p] == '_' && s[q] == '_'
    ensures s[..r] == s[..p] + "_" + s[p + 1..q] + "_" + s[q + 1..r]
  {
    assert s[..r] == s[..q] + s[q..r];
    assert s[q..r] == [s[q]] + s[q + 1..r];
    assert s[..q] == s[..p] + [s[p]] + s[p + 1..q];
  }

  /** The pieces of `id _ t _ n` at their positions. */
  lemma PiecesAt(s: string, id: string, t: string, n: string)
    requires |id| + |t| + |n| + 2 <= |s| && s[..|id| + |t| + |n| + 2] == id + "_" + t + "_" + n
    ensures s[..|id|] == id && s[|id|] == '_' && s[|id| + 1..|id| + |t| + 1] == t
    ensures s[|id| + |t| + 1] == '_' && s[|id| + |t| + 2..|id| + |t| + |n| + 2] == n
  {
    var r0 := |id| + |t| + |n| + 2;
    assert s[..|id|] == s[..r0][..|id|];
    var x := id + "_" + t + "_" + n;
    forall k | 0 <= k < |t| ensures s[|id| + 1 + k] == t[k] {
      assert s[|id| + 1 + k] == x[|id| + 1 + k];
    }
    assert s[|id| + |t| + 2..r0] == s[..r0][|id| + |t| + 2..r0];
  }

  /** The groups the matcher takes from the positions it found form a name of
      the reference shape. */
  lemma GroupsAt(s: string, p: nat, q: nat, r: nat)
    requires 0 < p && p + 1 < q && q + 1 < r <= |s| && s[p] == '_' && s[q] == '_'
    requires forall k :: 0 <= k < p ==> IsDigit(s[k])
    requires forall k :: p + 1 <= k < q ==> IsWord(s[k])
    requires forall k :: q + 1 <= k < r ==> IsDigit(s[k])
    requires StampAt(s, r)
    ensures StatsName(s, s[..p], s[p + 1..q], s[q + 1..r])
  {
    CutAtTwo(s, p, q, r);
  }

  /** Every match is a name of the reference shape, with the matched groups. */
  lemma MatchSound(s: string)
    requires Match(s).Some?
    ensures StatsName(s, Match(s).value.0, Match(s).value.1, Match(s).value.2)
  {
    var p := DigitRunEnd(s, 0);
    var w := WordRunEnd(s, p + 1);
    var q := LastTail(s, p + 2, w).value;
    GroupsAt(s, p, q, DigitRunEnd(s, q + 1));
  }

  /** A run of digits ended by a non-digit is where `DigitRunEnd` stops. */
  lemma DigitRunEndAt(s: string, i: nat, r: nat)
    requires i <= r < |s| && !IsDigit(s[r])
    requires forall k :: i <= k < r ==> IsDigit(s[k])
    ensures DigitRunEnd(s, i) == r
  {
  }

  /** A run of word characters ended by a non-word character is where
      `WordRunEnd` stops. */
  lemma WordRunEndAt(s: string, i: nat, r: nat)
    requires i <= r < |s| && !IsWord(s[r])
    requires forall k :: i <= k < r ==> IsWord(s[k])
    ensures WordRunEnd(s, i) == r
  {
  }

  lemma CharsAt(s: string, i: nat, x: string)
    requires i + |x| <= |s| && s[i..i + |x|] == x
    ensures forall k :: i <= k < i + |x| ==> s[k] == x[k - i]
  {
  }

  /** What the matcher returns once its three positions are known. */
  lemma MatchAt(s: string, p: nat, q: nat, r: nat)
    requires 0 < p < |s| && DigitRunEnd(s, 0) == p && s[p] == '_'
    requires LastTail(s, p + 2, WordRunEnd(s, p + 1)) == Some(q) && DigitRunEnd(s, q + 1) == r
    ensures Match(s) == Some((s[..p], s[p + 1..q], s[q + 1..r]))
  {
  }

  lemma IdRun(s: string, id: string, t: string, n: string)
    requires StatsName(s, id, t, n)
    ensures DigitRunEnd(s, 0) == |id| && s[|id|] == '_'
  {
    PiecesAt(s, id, t, n);
    CharsAt(s, 0, id);
    DigitRunEndAt(s, 0, |id|);
  }

  lemma CountRun(s: string, id: string, t: string, n: string)
    requires StatsName(s, id, t, n)
    ensures DigitRunEnd(s, |id| + |t| + 2) == |id| + |t| + |n| + 2
  {
    var r0 := |id| + |t| + |n| + 2;
    PiecesAt(s, id, t, n);
    CharsAt(s, |id| + |t| + 2, n);
    DigitRunEndAt(s, |id| + |t| + 2, r0);
  }

  lemma TypeRun(s: string, id: string, t: string, n: string)
    requires StatsName(s, id, t, n)
    ensures WordRunEnd(s, |id| + 1) == |id| + |t| + |n| + 24
  {
    var r0 := |id| + |t| + |n| + 2;
    PiecesAt(s, id, t, n);
    CharsAt(s, |id| + 1, t);
    CharsAt(s, |id| + |t| + 2, n);
    StampWords(s, r0);
    WordRunEndAt(s, |id| + 1, r0 + 22);
  }

  /** Every name of the reference shape matches, with exactly its own groups: the
      pattern is unambiguous on result-file names. */
  lemma MatchComplete(s: string, id: string, t: string, n: string)
    requires StatsName(s, id, t, n)
    ensures Match(s) == Some((id, t, n))
  {
    var p := |id|;
    var q0 := |id| + |t| + 1;
    var w := |id| + |t| + |n| + 24;
    IdRun(s, id, t, n);
    CountRun(s, id, t, n);
    TypeRun(s, id, t, n);
    PiecesAt(s, id, t, n);
    assert TailAt(s, q0);
    LastTailFinds(s, p + 2, w, q0);
    TailUnique(s, p + 1, w, q0, LastTail(s, p + 2, w).value);
    MatchAt(s, p, q0, |id| + |t| + |n| + 2);
  }

  /** A name built from the parts in the order of the pattern gives them back,
      whatever follows the suffix. */
  lemma NameRoundTrip(id: string, t: string, n: string, date: string, time: string, rest: string)
    requires |id| > 0 && |t| > 0 && |n| > 0 && AllDigits(id) && AllWord(t) && AllDigits(n)
    requires |date| == 8 && |time| == 6 && AllDigits(date) && AllDigits(time)
    ensures Match(id + "_" + t + "_" + n + "_" + date + "_" + time + StatsSuffix + rest) == Some((id, t, n))
  {
    var head := id + "_" + t + "_" + n;
    var stamp := "_" + date + "_" + time + StatsSuffix;
    var s := id + "_" + t + "_" + n + "_" + date + "_" + time + StatsSuffix + rest;
    assert s == head + stamp + rest;
    var r := |head|;
    assert s[..r] == head;
    assert forall k :: r <= k < r + 26 ==> s[k] == stamp[k - r];
    assert s[r + 16..r + 26] == StatsSuffix;
    MatchComplete(s, id, t, n);
  }

  // ---------------------------------------------------------------------------
  // Record counts

  /** `int(...)` of a text of decimal digits; leading zeros are allowed. */
  function DecimalValue(s: string): nat
    requires AllDigits(s)
  {
    if |s| == 0 then 0
    else DecimalValue(s[..|s| - 1]) * 10 + (s[|s| - 1] as int - '0' as int)
  }

  /** Reading back the decimal text of a count gives the count. */
  lemma {:induction false} DecimalValueOfText(n: nat)
    ensures AllDigits(NatToString(n)) && DecimalValue(NatToString(n)) == n
  {
    var s := NatToString(n);
    if n < 10 {
      DigitCharCode(n);
      assert s[..0] == [];
    } else {
      DecimalValueOfText(n / 10);
      assert s[..|s| - 1] == NatToString(n / 10);
      DigitCharCode(n % 10);
    }
  }

  // ---------------------------------------------------------------------------
  // Collecting the result files of a folder

  /** A directory listing entry and whether it is a regular file. */
  datatype DirEntry = DirEntry(name: string, isFile: bool)

  /** What the scan keeps of a result file. */
  datatype StatsFile = StatsFile(path: string, fileType: string, numRecords: nat)

  /** `os.path.join` of a folder and a name. */
  function JoinPath(folder: string, name: string): (r: string)
    ensures EndsWith(r, name)
  {
    if |name| > 0 && name[0] == '/' then name
    else if |folder| == 0 || folder[|folder| - 1] == '/' then folder + name
    else folder + "/" + name
  }

  /** What one entry contributes: its scenario id and its file, when it is a
      regular file whose name matches the pattern. */
  function EntryFile(folder: string, e: DirEntry): (r: Option<(string, StatsFile)>)
    ensures r.Some? <==> e.isFile && Match(e.name).Some?
  {
    if !e.isFile then None
    else
      match Match(e.name)
      case None => None
      case Some((id, t, n)) =>
        MatchSound(e.name);
        Some((id, StatsFile(JoinPath(folder, e.name), t, DecimalValue(n))))
  }

  /** What each entry of a listing yields, in listing order. */
  function Yields(folder: string, listing: seq<DirEntry>): (ys: seq<Option<(string, StatsFile)>>)
    ensures |ys| == |listing|
  {
    seq(|listing|, i requires 0 <= i < |listing| => EntryFile(folder, listing[i]))
  }

  type Yield = Option<(string, StatsFile)>

  function Contribution(y: Yield, id: string): seq<StatsFile> {
    if y.Some? && y.value.0 == id then [y.value.1] else []
  }

  /** The files the yields put under scenario `id`, in order. */
  function Group(ys: seq<Yield>, id: string): seq<StatsFile> {
    if |ys| == 0 then []
    else Group(ys[..|ys| - 1], id) + Contribution(ys[|ys| - 1], id)
  }

  /** The files of scenario `id` in a listing, in listing order. */
  function Members(folder: string, listing: seq<DirEntry>, id: string): seq<StatsFile> {
    Group(Yields(folder, listing), id)
  }

  /** Every file of a group comes from a yield of that id. */
  lemma {:induction false} GroupSound(ys: seq<Yield>, id: string, f: StatsFile)
    requires f in Group(ys, id)
    ensures exists k :: 0 <= k < |ys| && ys[k] == Some((id, f))
  {
    var init := ys[..|ys| - 1];
    if f in Group(init, id) {
      GroupSound(init, id, f);
      var k :| 0 <= k < |init| && init[k] == Some((id, f));
      assert ys[k] == init[k];
    } else {
      assert ys[|ys| - 1] == Some((id, f));
    }
  }

  /** Every yield of a file under an id puts it into that id's group. */
  lemma {:induction false} GroupComplete(ys: seq<Yield>, id: string, f: StatsFile, k: nat)
    requires k < |ys| && ys[k] == Some((id, f))
    ensures f in Group(ys, id)
  {
    var init := ys[..|ys| - 1];
    if k < |init| {
      assert init[k] == ys[k];
      GroupComplete(init, id, f, k);
    } else {
      assert Contribution(ys[k], id) == [f];
    }
  }

  /** A file is among the scenario's files exactly when some entry of the listing
      is a regular file whose name matches and yields it under that id. */
  lemma MembersSpec(folder: string, listing: seq<DirEntry>, id: string, f: StatsFile)
    ensures f in Members(folder, listing, id)
      <==> exists k :: 0 <= k < |listing| && EntryFile(folder, listing[k]) == Some((id, f))
  {
    var ys := Yields(folder, listing);
    if f in Group(ys, id) {
      GroupSound(ys, id, f);
    }
    forall k | 0 <= k < |listing| && EntryFile(folder, listing[k]) == Some((id, f))
      ensures f in Group(ys, id) {
      GroupComplete(ys, id, f, k);
    }
  }

  lemma GroupNext(ys: seq<Yield>, i: nat, id: string)
    requires i < |ys|
    ensures Group(ys[..i + 1], id) == Group(ys[..i], id) + Contribution(ys[i], id)
  {
    assert ys[..i + 1][..i] == ys[..i];
  }

  /** The scenario ids of a scan result. */
  function Ids(info: seq<(string, seq<StatsFile>)>): set<string> {
    set j | 0 <= j < |info| :: info[j].0
  }

  function IdKey(id: string): Key {
    [Str(id)]
  }

  lemma IdKeyLt(a: string, b: string)
    ensures KeyLt(IdKey(a), IdKey(b)) <==> StrLt(a, b)
  {
    assert IdKey(a)[1..] == [] && IdKey(b)[1..] == [];
  }

  ghost predicate NoDuplicates(s: seq<string>) {
    forall x :: multiset(s)[x] <= 1
  }

  lemma DistinctAt(s: seq<string>, a: nat, b: nat)
    requires NoDuplicates(s) && a < b < |s|
    ensures s[a] != s[b]
  {
    assert s == s[..b] + s[b..];
    assert s[a] in s[..b];
    assert s[b] in s[b..];
    assert multiset(s)[s[b]] == multiset(s[..b])[s[b]] + multiset(s[b..])[s[b]];
  }

  /** Sorted by the id key and free of duplicates means strictly ascending ids. */
  lemma SortedIdsAscending(ks: seq<string>)
    requires SortedBy(ks, IdKey) && NoDuplicates(ks)
    ensures forall i, j :: 0 <= i < j < |ks| ==> StrLt(ks[i], ks[j])
  {
    forall i, j | 0 <= i < j < |ks| ensures StrLt(ks[i], ks[j]) {
      DistinctAt(ks, i, j);
      IdKeyLt(ks[j], ks[i]);
      StrLtTrichotomy(ks[i], ks[j]);
    }
  }

  /** One listing entry of the scan: its file, if any, is appended to its
      scenario's group; a new scenario id is added to the ids seen so far. */
  method AddEntry(groups: map<string, seq<StatsFile>>, order: seq<string>, y: Yield)
    returns (groups': map<string, seq<StatsFile>>, order': seq<string>)
    requires forall id :: id in order <==> id in groups
    requires NoDuplicates(order)
    ensures forall id :: id in groups' <==> id in groups || Contribution(y, id) != []
    ensures forall id :: id in groups' ==>
      groups'[id] == (if id in groups then groups[id] else []) + Contribution(y, id)
    ensures forall id :: id in order' <==> id in groups'
    ensures NoDuplicates(order')
  {
    groups', order' := groups, order;
    match y
    case None =>
    case Some((id, f)) =>
      if id !in groups {
        groups' := groups'[id := []];
        order' := order' + [id];
      }
      groups' := groups'[id := groups'[id] + [f]];
  }

  /** The loop of `_collect_file_names`: the dictionary from scenario id to its
      files, and its keys in insertion order. */
  method GroupEntries(folder: string, listing: seq<DirEntry>)
    returns (groups: map<string, seq<StatsFile>>, order: seq<string>)
    ensures forall id :: id in groups <==> Members(folder, listing, id) != []
    ensures forall id :: id in groups ==> groups[id] == Members(folder, listing, id) && groups[id] != []
    ensures forall id :: id in order <==> id in groups
    ensures NoDuplicates(order)
  {
    ghost var ys := Yields(folder, listing);
    groups, order := map[], [];
    var i := 0;
    while i < |listing|
      invariant i <= |listing|
      invariant forall id :: id in groups <==> Group(ys[..i], id) != []
      invariant forall id :: id in groups ==> groups[id] == Group(ys[..i], id)
      invariant forall id :: id in order <==> id in groups
      invariant NoDuplicates(order)
    {
      forall id ensures Group(ys[..i + 1], id) == Group(ys[..i], id) + Contribution(ys[i], id) {
        GroupNext(ys, i, id);
      }
      groups, order := AddEntry(groups, order, EntryFile(folder, listing[i]));
      i := i + 1;
    }
    assert ys[..i] == ys;
  }

  /** The ids of the dictionary sorted as `sorted` sorts texts: the same ids,
      in strictly ascending order. */
  lemma SortedIds(order: seq<string>)
    requires NoDuplicates(order)
    ensures forall x :: x in SortBy(order, IdKey) <==> x in order
    ensures forall i, j :: 0 <= i < j < |SortBy(order, IdKey)| ==>
      StrLt(SortBy(order, IdKey)[i], SortBy(order, IdKey)[j])
  {
    var ks := SortBy(order, IdKey);
    SortByIsSorted(order, IdKey);
    assert NoDuplicates(ks);
    SortedIdsAscending(ks);
    forall x ensures x in ks <==> x in order {
      assert x in ks <==> x in multiset(ks);
      assert x in order <==> x in multiset(order);
    }
  }

  /** `_collect_file_names`: the result files of the listing, grouped by scenario
      id; each group keeps listing order and the groups come in ascending id order. */
  method CollectFileNames(folder: string, listing: seq<DirEntry>) returns (info: seq<(string, seq<StatsFile>)>)
    ensures forall i, j :: 0 <= i < j < |info| ==> StrLt(info[i].0, info[j].0)
    ensures forall j :: 0 <= j < |info| ==>
      info[j].1 == Members(folder, listing, info[j].0) && info[j].1 != []
    ensures forall id :: id in Ids(info) <==> Members(folder, listing, id) != []
  {
    var groups, order := GroupEntries(folder, listing);
    var ks := SortBy(order, IdKey);
    SortedIds(order);
    info := seq(|ks|, j requires 0 <= j < |ks| => (ks[j], groups[ks[j]]));
    forall j | 0 <= j < |info|
      ensures info[j].1 == Members(folder, listing, info[j].0) && info[j].1 != [] {
      assert info[j] == (ks[j], groups[ks[j]]);
    }
    forall id | id in groups ensures id in Ids(info) {
      var j :| 0 <= j < |ks| && ks[j] == id;
      assert info[j].0 == id;
    }
  }
}
