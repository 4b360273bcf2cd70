/** The handful of Python string operations the profiler relies on, defined on
    `string` (a sequence of characters): prefix and substring tests, `find`,
    `split`/`join` on a separator, `replace`, `strip`, `os.path.basename`,
    ASCII case mapping, decimal formatting of naturals and the code-point
    ordering Python uses to compare strings. */
module Text {
  import opened Wrappers

  predicate StartsWith(s: string, p: string) {
    |p| <= |s| && s[..|p|] == p
  }

  predicate EndsWith(s: string, p: string) {
    |p| <= |s| && s[|s| - |p|..] == p
  }

  /** `p` occurs in `s` starting at index `i`. */
  predicate OccursAt(s: string, p: string, i: nat) {
    i + |p| <= |s| && s[i..i + |p|] == p
  }

  /** Python's `p in s`. */
  predicate Contains(s: string, p: string) {
    exists i: nat | i <= |s| :: OccursAt(s, p, i)
  }

  /** The leftmost occurrence of `p` in `s` at or after `i` (Python's `s.find(p, i)`). */
  function FindFrom(s: string, p: string, i: nat): (r: Option<nat>)
    requires i <= |s|
    ensures r.Some? ==> i <= r.value && OccursAt(s, p, r.value)
    ensures r.Some? ==> forall j: nat :: i <= j < r.value ==> !OccursAt(s, p, j)
    ensures r.None? ==> forall j: nat :: i <= j ==> !OccursAt(s, p, j)
    decreases |s| - i
  {
    if i + |p| > |s| then None
    else if s[i..i + |p|] == p then Some(i)
    else FindFrom(s, p, i + 1)
  }

  function Find(s: string, p: string): (r: Option<nat>)
    ensures r.Some? ==> OccursAt(s, p, r.value) && forall j: nat :: j < r.value ==> !OccursAt(s, p, j)
    ensures r.None? <==> !Contains(s, p)
  {
    FindFrom(s, p, 0)
  }

  /** Python's `s.split(sep)` for a non-empty separator. */
  function Split(s: string, sep: string): (parts: seq<string>)
    requires |sep| > 0
    ensures |parts| >= 1
    decreases |s|
  {
    match Find(s, sep)
    case None => [s]
    case Some(i) => [s[..i]] + Split(s[i + |sep|..], sep)
  }

  /** Python's `sep.join(parts)`. */
  function Join(parts: seq<string>, sep: string): string {
    if |parts| == 0 then ""
    else if |parts| == 1 then parts[0]
    else parts[0] + sep + Join(parts[1..], sep)
  }

  lemma JoinCons(h: string, tail: seq<string>, sep: string)
    requires |tail| >= 1
    ensures Join([h] + tail, sep) == h + sep + Join(tail, sep)
  {
    var parts := [h] + tail;
    assert parts[0] == h && parts[1..] == tail;
  }

  lemma SplitAt(s: string, sep: string, i: nat)
    requires |sep| > 0
    requires Find(s, sep) == Some(i)
    ensures Split(s, sep) == [s[..i]] + Split(s[i + |sep|..], sep)
    ensures s == s[..i] + sep + s[i + |sep|..]
  {
    assert s[i..i + |sep|] == sep;
    assert s == s[..i] + s[i..i + |sep|] + s[i + |sep|..];
  }

  /** Splitting and joining again gives back the original text. */
  lemma {:induction false} JoinSplit(s: string, sep: string)
    requires |sep| > 0
    ensures Join(Split(s, sep), sep) == s
    decreases |s|
  {
    var r := Find(s, sep);
    if r.Some? {
      var i := r.value;
      var rest := s[i + |sep|..];
      SplitAt(s, sep, i);
      JoinSplit(rest, sep);
      JoinCons(s[..i], Split(rest, sep), sep);
    }
  }

  /** No piece that `split` returns contains the separator. */
  lemma {:induction false} SplitPartsFree(s: string, sep: string)
    requires |sep| > 0
    ensures forall k :: 0 <= k < |Split(s, sep)| ==> !Contains(Split(s, sep)[k], sep)
    decreases |s|
  {
    match Find(s, sep)
    case None =>
    case Some(i) =>
      var rest := s[i + |sep|..];
      SplitPartsFree(rest, sep);
      var head := s[..i];
      forall j: nat | OccursAt(head, sep, j) ensures false {
        assert head[j..j + |sep|] == s[j..j + |sep|];
        assert OccursAt(s, sep, j);
      }
  }

  /** `p` has no proper prefix that is also a suffix, so two occurrences of it cannot overlap. */
  predicate Unbordered(p: string) {
    forall k :: 0 < k < |p| ==> p[..k] != p[|p| - k..]
  }

  /** An occurrence of `sep` that starts inside `a` and ends inside the separator
      following it makes a suffix of `sep` equal to a prefix of `sep`. */
  lemma StraddleBorder(a: string, sep: string, b: string, j: nat)
    requires j < |a| < j + |sep|
    requires OccursAt(a + sep + b, sep, j)
    ensures sep[..j + |sep| - |a|] == sep[|sep| - (j + |sep| - |a|)..]
  {
    var s := a + sep + b;
    var k := j + |sep| - |a|;
    assert s[j..j + |sep|][|sep| - k..] == s[|a|..j + |sep|];
    assert s[|a|..j + |sep|] == sep[..k];
  }

  /** An occurrence of `sep` in `a + sep + b` that starts inside `a` would lie in `a`
      or overlap the separator itself. */
  lemma NoEarlyOccurrence(a: string, sep: string, b: string, j: nat)
    requires |sep| > 0 && Unbordered(sep)
    requires !Contains(a, sep) && j < |a|
    ensures !OccursAt(a + sep + b, sep, j)
  {
    var s := a + sep + b;
    if OccursAt(s, sep, j) {
      if j + |sep| <= |a| {
        assert a[j..j + |sep|] == s[j..j + |sep|];
        assert OccursAt(a, sep, j);
      } else {
        StraddleBorder(a, sep, b, j);
        assert false;
      }
    }
  }

  /** With an unbordered separator that occurs in neither piece, `a + sep + b` splits into `[a, b]`. */
  lemma SplitTwo(a: string, sep: string, b: string)
    requires |sep| > 0 && Unbordered(sep)
    requires !Contains(a, sep) && !Contains(b, sep)
    ensures Split(a + sep + b, sep) == [a, b]
  {
    var s := a + sep + b;
    assert s[|a|..|a| + |sep|] == sep;
    assert OccursAt(s, sep, |a|);
    var r := Find(s, sep);
    if r.Some? && r.value < |a| {
      NoEarlyOccurrence(a, sep, b, r.value);
    }
    assert r == Some(|a|);
    SplitAt(s, sep, |a|);
    assert s[..|a|] == a;
    assert s[|a| + |sep|..] == b;
  }

  /** A text with two separate occurrences of the separator splits into at least three pieces. */
  lemma SplitAtLeastThree(s: string, sep: string, j1: nat, j2: nat)
    requires |sep| > 0 && OccursAt(s, sep, j1) && OccursAt(s, sep, j2) && j1 + |sep| <= j2
    ensures |Split(s, sep)| >= 3
  {
    assert j1 <= |s|;
    assert Contains(s, sep);
    var i := Find(s, sep).value;
    var rest := s[i + |sep|..];
    var w := j2 - i - |sep|;
    assert rest[w..w + |sep|] == s[j2..j2 + |sep|];
    assert OccursAt(rest, sep, w) && w <= |rest|;
    assert Find(rest, sep).Some?;
    SplitAt(s, sep, i);
  }

  /** A two-character separator that occurs in neither text does not occur in their
      concatenation when the first text does not end with its first character. */
  lemma NoPairAcross(a: string, b: string, sep: string)
    requires |sep| == 2 && !Contains(a, sep) && !Contains(b, sep)
    requires |a| == 0 || a[|a| - 1] != sep[0]
    ensures !Contains(a + b, sep)
  {
    var s := a + b;
    forall i: nat | i <= |s| ensures !OccursAt(s, sep, i) {
      if i + 2 <= |a| {
        assert s[i..i + 2] == a[i..i + 2];
        assert !OccursAt(a, sep, i);
      } else if i >= |a| {
        if i + 2 <= |s| {
          assert s[i..i + 2] == b[i - |a|..i - |a| + 2];
          assert !OccursAt(b, sep, i - |a|);
        }
      } else if i + 2 <= |s| {
        assert s[i..i + 2][0] == a[|a| - 1];
      }
    }
  }

  /** A text without the first character of a separator cannot contain it. */
  lemma NoLeadChar(a: string, sep: string)
    requires |sep| > 0 && sep[0] !in a
    ensures !Contains(a, sep)
  {
    forall i: nat | i <= |a| ensures !OccursAt(a, sep, i) {
      if i + |sep| <= |a| {
        assert a[i..i + |sep|][0] == a[i];
      }
    }
  }

  /** A one-character separator occurs exactly where its character does. */
  lemma ContainsChar(s: string, c: char)
    ensures Contains(s, [c]) <==> c in s
  {
    if c in s {
      var i :| 0 <= i < |s| && s[i] == c;
      assert s[i..i + 1] == [c];
      assert OccursAt(s, [c], i);
    }
    forall i: nat | i <= |s| && OccursAt(s, [c], i) ensures c in s {
      assert s[i..i + 1][0] == s[i];
    }
  }

  lemma {:induction false} JoinSnoc(init: seq<string>, x: string, sep: string)
    requires |init| > 0
    ensures Join(init + [x], sep) == Join(init, sep) + sep + x
    decreases |init|
  {
    if |init| == 1 {
      assert (init + [x])[1..] == [x];
    } else {
      assert (init + [x])[1..] == init[1..] + [x];
      JoinSnoc(init[1..], x, sep);
    }
  }

  /** `s` is everything before its last split piece followed by that piece, which
      holds no separator. */
  lemma SplitLast(s: string, sep: string)
    requires |sep| > 0
    ensures var parts := Split(s, sep);
      var last := parts[|parts| - 1];
      !Contains(last, sep) && EndsWith(s, last)
      && (|parts| == 1 ==> s == last)
      && (|parts| > 1 ==> s == Join(parts[..|parts| - 1], sep) + sep + last)
  {
    var parts := Split(s, sep);
    var last := parts[|parts| - 1];
    JoinSplit(s, sep);
    SplitPartsFree(s, sep);
    assert parts == parts[..|parts| - 1] + [last];
    if |parts| > 1 {
      JoinSnoc(parts[..|parts| - 1], last, sep);
    }
  }

  /** The basename is the one suffix that holds no '/' and is the whole path or follows a '/'. */
  lemma BasenameUnique(path: string, x: string)
    requires EndsWith(path, x) && '/' !in x
    requires |x| == |path| || path[|path| - |x| - 1] == '/'
    ensures x == Basename(path)
  {
    var b := Basename(path);
    assert |x| == |b|;
  }

  /** Splitting a path on '/' ends with its basename, after the directory part. */
  lemma SplitBasename(path: string)
    ensures var parts := Split(path, "/");
      parts[|parts| - 1] == Basename(path)
      && (|parts| == 1 ==> path == Basename(path))
      && (|parts| > 1 ==> path == Join(parts[..|parts| - 1], "/") + "/" + Basename(path))
  {
    var parts := Split(path, "/");
    var last := parts[|parts| - 1];
    SplitLast(path, "/");
    ContainsChar(last, '/');
    if |parts| > 1 {
      var dir := Join(parts[..|parts| - 1], "/");
      assert path[|dir|] == '/';
    }
    BasenameUnique(path, last);
  }

  /** Python's `s.replace(pat, repl)`: every occurrence, scanned left to right without overlap. */
  function Replace(s: string, pat: string, repl: string): string
    requires |pat| > 0
    decreases |s|
  {
    if |s| < |pat| then s
    else if s[..|pat|] == pat then repl + Replace(s[|pat|..], pat, repl)
    else [s[0]] + Replace(s[1..], pat, repl)
  }

  /** Replacing a pattern that does not occur changes nothing. */
  lemma {:induction false} ReplaceAbsent(s: string, pat: string, repl: string)
    requires |pat| > 0 && !Contains(s, pat)
    ensures Replace(s, pat, repl) == s
    decreases |s|
  {
    if |s| < |pat| {
    } else {
      assert !OccursAt(s, pat, 0);
      forall j: nat | OccursAt(s[1..], pat, j) ensures false {
        assert s[1..][j..j + |pat|] == s[j + 1..j + 1 + |pat|];
        assert OccursAt(s, pat, j + 1);
      }
      ReplaceAbsent(s[1..], pat, repl);
      assert s == [s[0]] + s[1..];
    }
  }

  /** Python's `str.isspace` for one character: the ASCII and Latin-1 blanks and
      separators, and the Unicode spaces and line and paragraph separators. */
  predicate IsSpace(c: char) {
    c == ' ' || c == '\t' || c == '\n' || c == '\r' || c == '\U{B}' || c == '\U{C}'
    || ('\U{1C}' <= c <= '\U{1F}') || c == '\U{85}' || c == '\U{A0}'
    || c == '\U{1680}' || ('\U{2000}' <= c <= '\U{200A}') || c == '\U{2028}' || c == '\U{2029}'
    || c == '\U{202F}' || c == '\U{205F}' || c == '\U{3000}'
  }

  function StripLeft(s: string): string {
    if |s| > 0 && IsSpace(s[0]) then StripLeft(s[1..]) else s
  }

  function StripRight(s: string): string {
    if |s| > 0 && IsSpace(s[|s| - 1]) then StripRight(s[..|s| - 1]) else s
  }

  /** Python's `s.strip()`. */
  function Strip(s: string): string {
    StripRight(StripLeft(s))
  }

  /** Stripping a printed line removes exactly its trailing newline when the text
      neither starts nor ends with whitespace. */
  lemma StripLine(a: string)
    requires |a| > 0 && !IsSpace(a[0]) && !IsSpace(a[|a| - 1])
    ensures Strip(a + "\n") == a
  {
    var line := a + "\n";
    assert StripLeft(line) == line;
    assert line[..|line| - 1] == a;
    assert StripRight(line) == StripRight(a);
  }

  /** Python's `os.path.basename`: the text after the last '/'. */
  function Basename(path: string): (b: string)
    ensures EndsWith(path, b) && '/' !in b
    ensures |b| < |path| ==> path[|path| - |b| - 1] == '/'
  {
    if |path| == 0 then ""
    else if path[|path| - 1] == '/' then ""
    else
      var prev := Basename(path[..|path| - 1]);
      assert path[..|path| - 1][|path| - 1 - |prev|..] == path[|path| - 1 - |prev|..|path| - 1];
      prev + [path[|path| - 1]]
  }

  function LowerChar(c: char): char {
    if 'A' <= c <= 'Z' then (c as int + 32) as char else c
  }

  function UpperChar(c: char): char {
    if 'a' <= c <= 'z' then (c as int - 32) as char else c
  }

  /** Python's `s.lower()` on ASCII letters. */
  function Lower(s: string): (r: string)
    ensures |r| == |s| && forall i :: 0 <= i < |s| ==> r[i] == LowerChar(s[i])
  {
    seq(|s|, i requires 0 <= i < |s| => LowerChar(s[i]))
  }

  /** Python's `s.upper()` on ASCII letters. */
  function Upper(s: string): (r: string)
    ensures |r| == |s| && forall i :: 0 <= i < |s| ==> r[i] == UpperChar(s[i])
  {
    seq(|s|, i requires 0 <= i < |s| => UpperChar(s[i]))
  }

  function DigitChar(d: nat): char
    requires d < 10
  {
    ['0', '1', '2', '3', '4', '5', '6', '7', '8', '9'][d]
  }

  /** Python's `str(n)` for a natural number: its decimal digits. */
  function NatToString(n: nat): (r: string)
    ensures |r| >= 1
    ensures forall i :: 0 <= i < |r| ==> '0' <= r[i] <= '9'
  {
    if n < 10 then [DigitChar(n)] else NatToString(n / 10) + [DigitChar(n % 10)]
  }

  lemma DigitCharCode(d: nat)
    requires d < 10
    ensures DigitChar(d) as int == '0' as int + d
  {
  }

  lemma {:induction false} NatToStringLong(n: nat)
    requires n >= 10
    ensures |NatToString(n)| >= 2
  {
  }

  /** Distinct numbers print differently. */
  lemma {:induction false} NatToStringInjective(a: nat, b: nat)
    requires NatToString(a) == NatToString(b)
    ensures a == b
    decreases a
  {
    if a < 10 && b < 10 {
      DigitCharCode(a);
      DigitCharCode(b);
    } else if a < 10 {
      NatToStringLong(b);
    } else if b < 10 {
      NatToStringLong(a);
    } else {
      var sa, sb := NatToString(a / 10), NatToString(b / 10);
      assert NatToString(a) == sa + [DigitChar(a % 10)];
      assert NatToString(b) == sb + [DigitChar(b % 10)];
      assert sa == NatToString(a)[..|NatToString(a)| - 1];
      assert sb == NatToString(b)[..|NatToString(b)| - 1];
      DigitCharCode(a % 10);
      DigitCharCode(b % 10);
      NatToStringInjective(a / 10, b / 10);
    }
  }

  /** Python's `<` on strings: lexicographic order of code points. */
  predicate StrLt(a: string, b: string)
    decreases |a|
  {
    if |a| == 0 then |b| > 0
    else if |b| == 0 then false
    else if a[0] < b[0] then true
    else if a[0] == b[0] then StrLt(a[1..], b[1..])
    else false
  }

  lemma StrLtIrreflexive(a: string)
    ensures !StrLt(a, a)
  {
  }

  lemma {:induction false} StrLtTransitive(a: string, b: string, c: string)
    requires StrLt(a, b) && StrLt(b, c)
    ensures StrLt(a, c)
    decreases |a|
  {
    if |a| > 0 && |b| > 0 && |c| > 0 && a[0] == b[0] == c[0] {
      StrLtTransitive(a[1..], b[1..], c[1..]);
    }
  }

  lemma {:induction false} StrLtTrichotomy(a: string, b: string)
    ensures StrLt(a, b) || a == b || StrLt(b, a)
    decreases |a|
  {
    if |a| > 0 && |b| > 0 && a[0] == b[0] {
      StrLtTrichotomy(a[1..], b[1..]);
      if a[1..] == b[1..] {
        assert a == [a[0]] + a[1..] && b == [b[0]] + b[1..];
      }
    }
  }
}
