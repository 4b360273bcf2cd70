/** Cells, the values a table row holds (a number, a text or nothing), the order in
    which Python and pandas compare tuples of them, and a stable sort by a key
    (Python's `sorted(rows, key=...)` and `list.sort`). */
module Ordering {
  import opened Wrappers
  import opened Text

  /** A table cell. `Null` stands for Python's None / pandas' NaN. */
  datatype Cell = Num(x: real) | Str(s: string) | Null

  /** A number that may be missing (NaN) as a cell. */
  function OptCell(x: Option<real>): Cell {
    if x.Some? then Num(x.value) else Null
  }

  /** A sort key: a tuple of cells compared left to right. */
  type Key = seq<Cell>

  /** Numbers order numerically and texts by code points; `Null` sorts last, as
      pandas' `sort_values` places missing values, and numbers before texts. Python's
      own `<` is defined only between two numbers or two texts (`CellsComparable`):
      a Python sort is modelled by this order only when `Orderable` holds. */
  predicate CellLt(a: Cell, b: Cell) {
    match (a, b)
    case (Num(x), Num(y)) => x < y
    case (Str(s), Str(t)) => StrLt(s, t)
    case (Num(_), Str(_)) => true
    case (Num(_), Null) => true
    case (Str(_), Null) => true
    case _ => false
  }

  /** Lexicographic comparison of keys, as Python compares tuples. */
  predicate KeyLt(a: Key, b: Key)
    decreases |a|
  {
    if |a| == 0 then |b| > 0
    else if |b| == 0 then false
    else if CellLt(a[0], b[0]) then true
    else if a[0] == b[0] then KeyLt(a[1..], b[1..])
    else false
  }

  lemma CellLtIrreflexive(a: Cell)
    ensures !CellLt(a, a)
  {
    if a.Str? { StrLtIrreflexive(a.s); }
  }

  lemma CellLtTransitive(a: Cell, b: Cell, c: Cell)
    requires CellLt(a, b) && CellLt(b, c)
    ensures CellLt(a, c)
  {
    if a.Str? && b.Str? && c.Str? { StrLtTransitive(a.s, b.s, c.s); }
  }

  lemma CellLtTrichotomy(a: Cell, b: Cell)
    ensures CellLt(a, b) || a == b || CellLt(b, a)
  {
    if a.Str? && b.Str? { StrLtTrichotomy(a.s, b.s); }
  }

  lemma {:induction false} KeyLtIrreflexive(a: Key)
    ensures !KeyLt(a, a)
    decreases |a|
  {
    if |a| > 0 {
      CellLtIrreflexive(a[0]);
      KeyLtIrreflexive(a[1..]);
    }
  }

  lemma {:induction false} KeyLtTransitive(a: Key, b: Key, c: Key)
    ensures KeyLt(a, b) && KeyLt(b, c) ==> KeyLt(a, c)
    decreases |a|
  {
    if KeyLt(a, b) && KeyLt(b, c) && |a| > 0 && |b| > 0 && |c| > 0 {
      if CellLt(a[0], b[0]) && CellLt(b[0], c[0]) {
        CellLtTransitive(a[0], b[0], c[0]);
      } else if a[0] == b[0] == c[0] {
        KeyLtTransitive(a[1..], b[1..], c[1..]);
      }
    }
  }

  lemma {:induction false} KeyLtTrichotomy(a: Key, b: Key)
    ensures KeyLt(a, b) || a == b || KeyLt(b, a)
    decreases |a|
  {
    if |a| > 0 && |b| > 0 {
      CellLtTrichotomy(a[0], b[0]);
      if a[0] == b[0] {
        KeyLtTrichotomy(a[1..], b[1..]);
        if a[1..] == b[1..] {
          assert a == [a[0]] + a[1..] && b == [b[0]] + b[1..];
        }
      }
    }
  }

  /** Python's `<` accepts the two cells: both numbers or both texts. */
  predicate CellsComparable(a: Cell, b: Cell) {
    (a.Num? && b.Num?) || (a.Str? && b.Str?)
  }

  /** Python can compare the two tuples: at the first position where they differ
      (None equals None), `<` accepts the two cells. */
  predicate KeyComparable(a: Key, b: Key)
    decreases |a|
  {
    if |a| == 0 || |b| == 0 then true
    else if a[0] == b[0] then KeyComparable(a[1..], b[1..])
    else CellsComparable(a[0], b[0])
  }

  /** `list.sort(key=...)` finishes without a TypeError: every two keys compare. */
  predicate Orderable<T>(s: seq<T>, key: T -> Key) {
    forall i, j :: 0 <= i < |s| && 0 <= j < |s| ==> KeyComparable(key(s[i]), key(s[j]))
  }

  /** The TypeError Python's `<` raises for two cells it cannot compare. */
  const NotOrderable: Error := TypeError("'<' not supported between instances")

  /** `s` is in non-decreasing key order: no later element has a smaller key. */
  predicate SortedBy<T>(s: seq<T>, key: T -> Key) {
    forall i, j :: 0 <= i < j < |s| ==> !KeyLt(key(s[j]), key(s[i]))
  }

  /** The elements of `s` whose key is `k`, in their order in `s`. */
  function WithKey<T>(s: seq<T>, key: T -> Key, k: Key): seq<T> {
    if |s| == 0 then []
    else (if key(s[0]) == k then [s[0]] else []) + WithKey(s[1..], key, k)
  }

  /** Sorting is stable: elements with equal keys keep their relative order. */
  predicate StableFor<T(==)>(s: seq<T>, r: seq<T>, key: T -> Key) {
    forall x :: x in r ==> WithKey(r, key, key(x)) == WithKey(s, key, key(x))
  }

  /** Inserts `x` into a sorted sequence after every element whose key is not
      greater than its own. */
  function Insert<T>(x: T, t: seq<T>, key: T -> Key): (r: seq<T>)
    ensures multiset(r) == multiset(t) + multiset{x}
  {
    if |t| == 0 then [x]
    else if KeyLt(key(x), key(t[0])) then [x] + t
    else
      assert t == [t[0]] + t[1..];
      [t[0]] + Insert(x, t[1..], key)
  }

  /** Python's stable `sorted(s, key=key)`, as an insertion sort of each element in turn. */
  function SortBy<T>(s: seq<T>, key: T -> Key): (r: seq<T>)
    ensures multiset(r) == multiset(s)
    decreases |s|
  {
    if |s| == 0 then []
    else
      assert s == s[..|s| - 1] + [s[|s| - 1]];
      Insert(s[|s| - 1], SortBy(s[..|s| - 1], key), key)
  }

  /** Sorting keeps the length. */
  lemma SortByLength<T>(s: seq<T>, key: T -> Key)
    ensures |SortBy(s, key)| == |s|
  {
    assert |multiset(SortBy(s, key))| == |multiset(s)|;
  }

  lemma {:induction false} WithKeyAppend<T>(a: seq<T>, b: seq<T>, key: T -> Key, k: Key)
    ensures WithKey(a + b, key, k) == WithKey(a, key, k) + WithKey(b, key, k)
    decreases |a|
  {
    if |a| > 0 {
      var h: seq<T> := if key(a[0]) == k then [a[0]] else [];
      WithKeyAppend(a[1..], b, key, k);
      assert a + b == [a[0]] + (a[1..] + b);
      assert a == [a[0]] + a[1..];
      calc {
        WithKey(a + b, key, k);
        { WithKeyCons(a[0], a[1..] + b, key, k); }
        h + WithKey(a[1..] + b, key, k);
        h + (WithKey(a[1..], key, k) + WithKey(b, key, k));
        (h + WithKey(a[1..], key, k)) + WithKey(b, key, k);
        { WithKeyCons(a[0], a[1..], key, k); }
        WithKey(a, key, k) + WithKey(b, key, k);
      }
    } else {
      assert a + b == b;
    }
  }

  lemma WithKeyCons<T>(x: T, t: seq<T>, key: T -> Key, k: Key)
    ensures WithKey([x] + t, key, k) == (if key(x) == k then [x] else []) + WithKey(t, key, k)
  {
    assert ([x] + t)[1..] == t;
  }

  lemma {:induction false} InsertSorted<T>(x: T, t: seq<T>, key: T -> Key)
    requires SortedBy(t, key)
    ensures SortedBy(Insert(x, t, key), key)
    decreases |t|
  {
    if t != [] {
      if KeyLt(key(x), key(t[0])) {
        FrontSorted(x, t, key);
      } else {
        InsertSorted(x, t[1..], key);
        AfterHeadSorted(x, t, Insert(x, t[1..], key), key);
      }
    }
  }

  /** An element with a key below the head of a sorted sequence sorts in front of it. */
  lemma FrontSorted<T>(x: T, t: seq<T>, key: T -> Key)
    requires SortedBy(t, key) && t != [] && KeyLt(key(x), key(t[0]))
    ensures SortedBy([x] + t, key)
  {
    var r := [x] + t;
    forall i, j | 0 <= i < j < |r| ensures !KeyLt(key(r[j]), key(r[i])) {
      if i == 0 {
        KeyLtTransitive(key(r[j]), key(x), key(t[0]));
        KeyLtIrreflexive(key(t[0]));
        if j > 1 { assert !KeyLt(key(t[j - 1]), key(t[0])); }
      }
    }
  }

  /** The head of a sorted sequence stays in front of x inserted into its tail. */
  lemma AfterHeadSorted<T>(x: T, t: seq<T>, rest: seq<T>, key: T -> Key)
    requires SortedBy(t, key) && t != [] && !KeyLt(key(x), key(t[0]))
    requires SortedBy(rest, key) && multiset(rest) == multiset(t[1..]) + multiset{x}
    ensures SortedBy([t[0]] + rest, key)
  {
    var r := [t[0]] + rest;
    forall i, j | 0 <= i < j < |r| ensures !KeyLt(key(r[j]), key(r[i])) {
      if i == 0 {
        assert r[j] in multiset(rest);
        assert r[j] in multiset(t[1..]) + multiset{x};
        if r[j] == x {
          KeyLtTrichotomy(key(x), key(t[0]));
        } else {
          assert r[j] in t[1..];
          var m :| 0 <= m < |t[1..]| && t[1..][m] == r[j];
          assert t[m + 1] == r[j];
        }
      } else {
        assert r[j] == rest[j - 1] && r[i] == rest[i - 1];
      }
    }
  }

  lemma {:induction false} InsertWithKey<T>(x: T, t: seq<T>, key: T -> Key, k: Key)
    requires SortedBy(t, key)
    ensures WithKey(Insert(x, t, key), key, k)
         == WithKey(t, key, k) + (if key(x) == k then [x] else [])
    decreases |t|
  {
    if t == [] {
      WithKeyCons(x, [], key, k);
    } else if KeyLt(key(x), key(t[0])) {
      WithKeyCons(x, t, key, k);
      if key(x) == k {
        NoneWithKey(t, key, k);
      }
    } else {
      SortedTail(t, key);
      InsertWithKey(x, t[1..], key, k);
      InsertWithKeyStep(x, t, key, k);
    }
  }

  /** The step of `InsertWithKey` past the first element. */
  lemma InsertWithKeyStep<T>(x: T, t: seq<T>, key: T -> Key, k: Key)
    requires t != [] && !KeyLt(key(x), key(t[0]))
    requires WithKey(Insert(x, t[1..], key), key, k) == WithKey(t[1..], key, k) + (if key(x) == k then [x] else [])
    ensures WithKey(Insert(x, t, key), key, k) == WithKey(t, key, k) + (if key(x) == k then [x] else [])
  {
    var tail := t[1..];
    var h := if key(t[0]) == k then [t[0]] else [];
    var e := if key(x) == k then [x] else [];
    assert Insert(x, t, key) == [t[0]] + Insert(x, tail, key);
    WithKeyCons(t[0], Insert(x, tail, key), key, k);
    assert WithKey(t, key, k) == h + WithKey(tail, key, k);
    AppendAssoc(h, WithKey(tail, key, k), e);
  }

  lemma AppendAssoc<T>(a: seq<T>, b: seq<T>, c: seq<T>)
    ensures a + (b + c) == (a + b) + c
  {
  }

  lemma SortedTail<T>(t: seq<T>, key: T -> Key)
    requires t != [] && SortedBy(t, key)
    ensures SortedBy(t[1..], key)
  {
    forall i, j | 0 <= i < j < |t| - 1 ensures !KeyLt(key(t[1..][j]), key(t[1..][i])) {
      assert t[1..][j] == t[j + 1] && t[1..][i] == t[i + 1];
    }
  }

  /** In a sorted sequence that starts above `k`, no element has key `k`. */
  lemma NoneWithKey<T>(t: seq<T>, key: T -> Key, k: Key)
    requires t != [] && SortedBy(t, key) && KeyLt(k, key(t[0]))
    ensures WithKey(t, key, k) == []
  {
    KeyLtIrreflexive(k);
    forall i | 0 < i < |t| ensures key(t[i]) != k {
      assert !KeyLt(key(t[i]), key(t[0]));
    }
    WithKeyEmpty(t, key, k);
  }

  lemma {:induction false} WithKeyEmpty<T>(t: seq<T>, key: T -> Key, k: Key)
    requires forall i :: 0 <= i < |t| ==> key(t[i]) != k
    ensures WithKey(t, key, k) == []
    decreases |t|
  {
    if t != [] { WithKeyEmpty(t[1..], key, k); }
  }

  /** The sort yields a sorted permutation of its input. */
  lemma {:induction false} SortByIsSorted<T>(s: seq<T>, key: T -> Key)
    ensures SortedBy(SortBy(s, key), key)
    decreases |s|
  {
    if s != [] {
      SortByIsSorted(s[..|s| - 1], key);
      InsertSorted(s[|s| - 1], SortBy(s[..|s| - 1], key), key);
    }
  }

  /** The sort is stable: for every key, the elements carrying it appear in input order. */
  lemma {:induction false} SortByWithKey<T>(s: seq<T>, key: T -> Key, k: Key)
    ensures WithKey(SortBy(s, key), key, k) == WithKey(s, key, k)
    decreases |s|
  {
    if s != [] {
      var init, last := s[..|s| - 1], s[|s| - 1];
      var h: seq<T> := if key(last) == k then [last] else [];
      assert s == init + [last];
      calc {
        WithKey(SortBy(s, key), key, k);
        WithKey(Insert(last, SortBy(init, key), key), key, k);
        { SortByIsSorted(init, key); InsertWithKey(last, SortBy(init, key), key, k); }
        WithKey(SortBy(init, key), key, k) + h;
        { SortByWithKey(init, key, k); }
        WithKey(init, key, k) + h;
        { WithKeyCons(last, [], key, k); assert [last] + [] == [last]; }
        WithKey(init, key, k) + WithKey([last], key, k);
        { WithKeyAppend(init, [last], key, k); }
        WithKey(s, key, k);
      }
    }
  }

  lemma SortByStable<T>(s: seq<T>, key: T -> Key)
    ensures StableFor(s, SortBy(s, key), key)
  {
    forall x | x in SortBy(s, key) ensures WithKey(SortBy(s, key), key, key(x)) == WithKey(s, key, key(x)) {
      SortByWithKey(s, key, key(x));
    }
  }

  /** Sorting an already sorted sequence leaves it as it is. */
  lemma {:induction false} SortBySortedIdentity<T>(s: seq<T>, key: T -> Key)
    requires SortedBy(s, key)
    ensures SortBy(s, key) == s
    decreases |s|
  {
    if s != [] {
      var init, last := s[..|s| - 1], s[|s| - 1];
      assert s == init + [last];
      assert SortedBy(init, key);
      SortBySortedIdentity(init, key);
      InsertAtEnd(last, init, key);
    }
  }

  lemma {:induction false} InsertAtEnd<T>(x: T, t: seq<T>, key: T -> Key)
    requires forall i :: 0 <= i < |t| ==> !KeyLt(key(x), key(t[i]))
    ensures Insert(x, t, key) == t + [x]
    decreases |t|
  {
    if t != [] {
      InsertAtEnd(x, t[1..], key);
      assert t == [t[0]] + t[1..];
    }
  }
}
