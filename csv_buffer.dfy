/** `FileWriterCsv`: an in-memory table that accepts its column names before any
    row, appends rows, orders them by key columns and finally hands header and
    rows to a CSV writer. Opening and writing the file is not modelled;
    `WriteToCsv` returns the records the writer would emit. */
module CsvBuffer {
  import opened Wrappers
  import opened Ordering

  type Record = seq<Cell>

  /** `self._columns.index(c)`: the position of the first column named `c`. */
  function IndexOf(columns: seq<string>, c: string): (i: nat)
    requires c in columns
    ensures i < |columns| && columns[i] == c
    ensures forall j :: 0 <= j < i ==> columns[j] != c
  {
    if columns[0] == c then 0 else 1 + IndexOf(columns[1..], c)
  }

  /** The positions of the key columns, each the first column of that name. */
  function KeyPositions(columns: seq<string>, keys: seq<string>): (ps: seq<nat>)
    requires forall k :: k in keys ==> k in columns
    ensures |ps| == |keys|
    ensures forall j :: 0 <= j < |keys| ==> ps[j] < |columns| && columns[ps[j]] == keys[j]
  {
    seq(|keys|, j requires 0 <= j < |keys| => IndexOf(columns, keys[j]))
  }

  /** The tuple of a row's values at the given positions; a position past the end
      of a short row contributes nothing (the source raises before that can matter). */
  function RowKey(ps: seq<nat>): Record -> Key {
    (row: Record) => seq(|ps|, j requires 0 <= j < |ps| => if ps[j] < |row| then row[ps[j]] else Null)
  }

  /** Every row is long enough to be indexed at every key position. */
  predicate RowsReach(rows: seq<Record>, ps: seq<nat>) {
    forall i, j :: 0 <= i < |rows| && 0 <= j < |ps| ==> ps[j] < |rows[i]|
  }

  /** The number of leading rows of `rs` whose length is `n`: `append_rows` stops at the first other one. */
  function MatchingPrefix(rs: seq<Record>, n: nat): (k: nat)
    ensures k <= |rs|
    ensures forall i :: 0 <= i < k ==> |rs[i]| == n
    ensures k < |rs| ==> |rs[k]| != n
  {
    if |rs| == 0 || |rs[0]| != n then 0 else 1 + MatchingPrefix(rs[1..], n)
  }

  /** The header record: the column names as text cells, in order. */
  function Header(columns: seq<string>): (h: Record)
    ensures |h| == |columns| && forall j :: 0 <= j < |columns| ==> h[j] == Str(columns[j])
  {
    seq(|columns|, j requires 0 <= j < |columns| => Str(columns[j]))
  }

  class FileWriterCsv {
    var filePath: string
    var columns: seq<string>
    var rows: seq<Record>

    constructor (filePath: string)
      ensures this.filePath == filePath && columns == [] && rows == []
    {
      this.filePath := filePath;
      columns := [];
      rows := [];
    }

    /** `have_columns`: true exactly when the column list is not empty. */
    function HaveColumns(): (b: bool)
      reads this
      ensures b <==> columns != []
    {
      |columns| > 0
    }

    /** `set_columns`: refused once a row exists, otherwise replaces the columns. */
    method SetColumns(cols: seq<string>) returns (err: Option<Error>)
      modifies this`columns
      ensures err.Some? <==> old(rows) != []
      ensures err.Some? ==> err.value == ValueError("Columns cannot be set once data has been appended.")
      ensures columns == if err.Some? then old(columns) else cols
    {
      if |rows| > 0 {
        return Some(ValueError("Columns cannot be set once data has been appended."));
      }
      columns := cols;
      return None;
    }

    /** `append_row`: needs columns, appends the row whatever its length. */
    method AppendRow(row: Record) returns (err: Option<Error>)
      modifies this`rows
      ensures err.Some? <==> columns == []
      ensures err.Some? ==> err.value == ValueError("Columns must be set before appending rows.")
      ensures rows == if err.Some? then old(rows) else old(rows) + [row]
    {
      if !HaveColumns() {
        return Some(ValueError("Columns must be set before appending rows."));
      }
      rows := rows + [row];
      return None;
    }

    /** `append_rows`: needs columns, then appends rows in order and raises at the
        first one whose length differs from the number of columns, keeping the
        rows of this call that came before it. */
    method AppendRows(newRows: seq<Record>) returns (err: Option<Error>)
      modifies this`rows
      ensures columns == [] ==> err == Some(ValueError("Columns must be set before appending rows.")) && rows == old(rows)
      ensures columns != [] ==> rows == old(rows) + newRows[..MatchingPrefix(newRows, |columns|)]
      ensures columns != [] ==> (err.Some? <==> MatchingPrefix(newRows, |columns|) < |newRows|)
      ensures columns != [] && err.Some? ==> err.value == ValueError("Row length does not match number of columns.")
    {
      if !HaveColumns() {
        return Some(ValueError("Columns must be set before appending rows."));
      }
      ghost var k := MatchingPrefix(newRows, |columns|);
      var i := 0;
      while i < |newRows|
        invariant 0 <= i <= k
        invariant rows == old(rows) + newRows[..i]
      {
        if |newRows[i]| != |columns| {
          MatchingPrefixStops(newRows, |columns|, i);
          return Some(ValueError("Row length does not match number of columns."));
        }
        MatchingPrefixContinues(newRows, |columns|, i);
        rows := rows + [newRows[i]];
        i := i + 1;
      }
      assert newRows[..i] == newRows;
      return None;
    }

    /** `order_by_columns`: needs columns and known key columns, then takes every
        row's key tuple (an IndexError for a row too short) and stably sorts the rows
        by them, which raises a TypeError when two tuples first differ at values `<`
        cannot compare (None against a value, a number against a text). The
        ValueErrors and the IndexError leave the rows where they were, since every
        key is built before the sort starts; the TypeError leaves them a
        permutation of the old rows, as the in-place sort stops part-way. */
    method OrderByColumns(keys: seq<string>) returns (err: Option<Error>)
      modifies this`rows
      ensures columns == [] ==> err == Some(ValueError("Columns must be set before ordering."))
      ensures columns != [] && (exists k :: k in keys && k !in columns) ==> err.Some? && err.value.ValueError?
      ensures err.Some? && err.value != NotOrderable ==> rows == old(rows)
      ensures err == Some(NotOrderable) ==> multiset(rows) == multiset(old(rows))
      ensures columns != [] && (forall k :: k in keys ==> k in columns) && !RowsReach(old(rows), KeyPositions(columns, keys))
              ==> err == Some(IndexError("list index out of range"))
      ensures columns != [] && (forall k :: k in keys ==> k in columns) && RowsReach(old(rows), KeyPositions(columns, keys))
              ==> (err.None? <==> Orderable(old(rows), RowKey(KeyPositions(columns, keys))))
                  && (err.Some? ==> err.value == NotOrderable)
      ensures err.None? ==> columns != [] && (forall k :: k in keys ==> k in columns)
      ensures err.None? ==> RowsReach(old(rows), KeyPositions(columns, keys))
                            && Orderable(old(rows), RowKey(KeyPositions(columns, keys)))
      ensures err.None? ==> rows == SortBy(old(rows), RowKey(KeyPositions(columns, keys)))
      ensures err.None? ==> multiset(rows) == multiset(old(rows))
                            && SortedBy(rows, RowKey(KeyPositions(columns, keys)))
                            && StableFor(old(rows), rows, RowKey(KeyPositions(columns, keys)))
    {
      if !HaveColumns() {
        return Some(ValueError("Columns must be set before ordering."));
      }
      var j := 0;
      while j < |keys|
        invariant 0 <= j <= |keys|
        invariant forall m :: 0 <= m < j ==> keys[m] in columns
      {
        if keys[j] !in columns {
          return Some(ValueError("Column '" + keys[j] + "' does not exist in the data."));
        }
        j := j + 1;
      }
      var ps := KeyPositions(columns, keys);
      if !RowsReach(rows, ps) {
        return Some(IndexError("list index out of range"));
      }
      var key := RowKey(ps);
      if !Orderable(rows, key) {
        return Some(NotOrderable);
      }
      SortByIsSorted(rows, key);
      SortByStable(rows, key);
      rows := SortBy(rows, key);
      return None;
    }

    /** `write_to_csv`: refuses an empty table, otherwise emits the header followed
        by the rows in their current order. */
    method WriteToCsv() returns (r: Result<seq<Record>>)
      ensures r.Err? <==> rows == []
      ensures r.Err? ==> r.error == ValueError("No data to write.")
      ensures r.Ok? ==> r.value == [Header(columns)] + rows
    {
      if |rows| == 0 {
        return Err(ValueError("No data to write."));
      }
      return Ok([Header(columns)] + rows);
    }
  }

  lemma MatchingPrefixStops(rs: seq<Record>, n: nat, i: nat)
    requires i < |rs| && |rs[i]| != n
    requires forall j :: 0 <= j < i ==> |rs[j]| == n
    ensures MatchingPrefix(rs, n) == i
  {
    if i > 0 {
      MatchingPrefixStops(rs[1..], n, i - 1);
    }
  }

  /** Rows that all have the column count are appended in full. */
  lemma {:induction false} MatchingPrefixAll(rs: seq<Record>, n: nat)
    requires forall i :: 0 <= i < |rs| ==> |rs[i]| == n
    ensures MatchingPrefix(rs, n) == |rs|
  {
    if |rs| > 0 {
      MatchingPrefixAll(rs[1..], n);
    }
  }

  lemma MatchingPrefixContinues(rs: seq<Record>, n: nat, i: nat)
    requires i < |rs| && |rs[i]| == n
    requires forall j :: 0 <= j < i ==> |rs[j]| == n
    ensures i < MatchingPrefix(rs, n)
  {
    if i > 0 {
      MatchingPrefixContinues(rs[1..], n, i - 1);
    }
  }
}
