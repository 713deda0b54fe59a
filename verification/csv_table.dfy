/** The record-to-table step of the ingestion script (`records_to_csv_bytes`):
    the header is the sorted union of every record's field names, and each
    record becomes one row holding its value for each column, or an empty
    cell where it has no such field. The table stops short of CSV text: cells
    are strings, and quoting, line ends and UTF-8 are left to the writer. */
module CsvTable {
  import opened Base

  datatype EncodeError = NoRecords

  datatype Table = Table(header: seq<string>, rows: seq<seq<string>>)

  // ---------------------------------------------------------------------
  // The order `sorted` puts field names in
  // ---------------------------------------------------------------------

  /** Python's `<` on `str`: lexicographic by code point, a proper prefix
      first. */
  predicate Below(a: string, b: string)
    decreases |a|
  {
    if |b| == 0 then false
    else if |a| == 0 then true
    else a[0] < b[0] || (a[0] == b[0] && Below(a[1..], b[1..]))
  }

  lemma {:induction false} BelowIrreflexive(a: string)
    ensures !Below(a, a)
  {
    if |a| > 0 {
      BelowIrreflexive(a[1..]);
    }
  }

  lemma {:induction false} BelowAsymmetric(a: string, b: string)
    requires Below(a, b)
    ensures !Below(b, a)
  {
    if |a| > 0 && a[0] == b[0] {
      BelowAsymmetric(a[1..], b[1..]);
    }
  }

  lemma {:induction false} BelowTransitive(a: string, b: string, c: string)
    requires Below(a, b) && Below(b, c)
    ensures Below(a, c)
  {
    if |a| > 0 && a[0] == b[0] && b[0] == c[0] {
      BelowTransitive(a[1..], b[1..], c[1..]);
    }
  }

  lemma {:induction false} BelowTotal(a: string, b: string)
    requires a != b
    ensures Below(a, b) || Below(b, a)
  {
    if |a| > 0 && |b| > 0 && a[0] == b[0] {
      assert a == [a[0]] + a[1..] && b == [b[0]] + b[1..];
      BelowTotal(a[1..], b[1..]);
    }
  }

  /** Ascending without repeats. */
  predicate StrictlySorted(s: seq<string>) {
    forall i, j :: 0 <= i < j < |s| ==> Below(s[i], s[j])
  }

  /** `s` with `x` added at its place in the order. */
  function Insert(s: seq<string>, x: string): (r: seq<string>)
    ensures |r| == |s| + 1
    ensures forall y :: y in r <==> y in s || y == x
  {
    if |s| == 0 then [x]
    else if Below(x, s[0]) then [x] + s
    else [s[0]] + Insert(s[1..], x)
  }

  lemma {:induction false} InsertKeepsSorted(s: seq<string>, x: string)
    requires StrictlySorted(s) && x !in s
    ensures StrictlySorted(Insert(s, x))
  {
    if |s| > 0 {
      if Below(x, s[0]) {
        forall j | 0 < j < |s|
          ensures Below(x, s[j])
        {
          BelowTransitive(x, s[0], s[j]);
        }
      } else {
        BelowTotal(x, s[0]);
        var t := Insert(s[1..], x);
        InsertKeepsSorted(s[1..], x);
        forall y | y in t
          ensures Below(s[0], y)
        {
          if y != x {
            var k :| 0 <= k < |s[1..]| && s[1..][k] == y;
            assert s[k + 1] == y;
          }
        }
        assert Insert(s, x) == [s[0]] + t;
      }
    }
  }

  ghost function Elements(s: seq<string>): set<string> {
    set x | x in s
  }

  /** A strictly sorted sequence has no repeats. */
  lemma {:induction false} SortedCardinality(s: seq<string>)
    requires StrictlySorted(s)
    ensures |Elements(s)| == |s|
  {
    if |s| > 0 {
      SortedCardinality(s[1..]);
      BelowIrreflexive(s[0]);
      assert s[0] !in s[1..];
      assert Elements(s) == {s[0]} + Elements(s[1..]);
    }
  }

  /** A sorted sequence without repeats is fixed by its elements: there is
      only one way to list a set of field names in order. */
  lemma {:induction false} SortedUnique(a: seq<string>, b: seq<string>)
    requires StrictlySorted(a) && StrictlySorted(b)
    requires forall x :: x in a <==> x in b
    ensures a == b
  {
    SortedCardinality(a);
    SortedCardinality(b);
    assert Elements(a) == Elements(b);
    if |a| > 0 {
      assert a[0] in b;
      assert b[0] in b;
      var k :| 0 <= k < |a| && a[k] == b[0];
      var m :| 0 <= m < |b| && b[m] == a[0];
      if k > 0 && m > 0 {
        BelowAsymmetric(a[0], a[k]);
      }
      assert a[0] == b[0];
      forall x
        ensures x in a[1..] <==> x in b[1..]
      {
        BelowIrreflexive(x);
        if x in a[1..] {
          var i :| 1 <= i < |a| && a[i] == x;
          assert x in b;
        }
        if x in b[1..] {
          var i :| 1 <= i < |b| && b[i] == x;
          assert x in a;
        }
      }
      SortedUnique(a[1..], b[1..]);
      assert a == [a[0]] + a[1..] && b == [b[0]] + b[1..];
    }
  }

  // ---------------------------------------------------------------------
  // Header and rows
  // ---------------------------------------------------------------------

  /** Every field name that occurs in some record. */
  ghost function KeyUnion(records: seq<Record>): (u: set<string>)
    ensures forall f :: f in u <==> exists i :: 0 <= i < |records| && f in records[i]
  {
    if |records| == 0 then {}
    else KeyUnion(records[..|records| - 1]) + records[|records| - 1].Keys
  }

  /** The cell `csv.DictWriter` writes for `field`: the record's value, or the
      empty string when the record lacks the field. */
  function Cell(rec: Record, field: string): string {
    if field in rec then rec[field] else ""
  }

  /** The row of one record under `header`. */
  function Row(header: seq<string>, rec: Record): (row: seq<string>)
    ensures |row| == |header|
    ensures forall j :: 0 <= j < |header| ==> row[j] == Cell(rec, header[j])
  {
    if |header| == 0 then [] else [Cell(rec, header[0])] + Row(header[1..], rec)
  }

  /** Reads a row back into a record: each column name with its cell. */
  function RowToRecord(header: seq<string>, row: seq<string>): Record
    requires |row| == |header|
  {
    if |header| == 0 then map[]
    else RowToRecord(header[1..], row[1..])[header[0] := row[0]]
  }

  /** `t` is the table of `records`: the header is the sorted union of their
      field names, and row `i` is the row of record `i`. */
  ghost predicate IsTableOf(t: Table, records: seq<Record>) {
    && StrictlySorted(t.header)
    && (forall f :: f in t.header <==> f in KeyUnion(records))
    && |t.rows| == |records|
    && forall i :: 0 <= i < |records| ==> t.rows[i] == Row(t.header, records[i])
  }

  /** The column names: the union of all keys, then sorted. */
  method FieldNames(records: seq<Record>) returns (fieldnames: seq<string>)
    ensures StrictlySorted(fieldnames)
    ensures forall f :: f in fieldnames <==> f in KeyUnion(records)
  {
    var names: set<string> := {};
    var i := 0;
    while i < |records|
      invariant i <= |records|
      invariant names == KeyUnion(records[..i])
    {
      assert records[..i + 1][..i] == records[..i];
      names := names + records[i].Keys;
      i := i + 1;
    }
    assert records[..i] == records;
    fieldnames := [];
    var rest := names;
    while rest != {}
      invariant rest <= names
      invariant StrictlySorted(fieldnames)
      invariant forall f :: f in fieldnames <==> f in names && f !in rest
      decreases |rest|
    {
      var f :| f in rest;
      InsertKeepsSorted(fieldnames, f);
      fieldnames := Insert(fieldnames, f);
      rest := rest - {f};
    }
  }

  /** `records_to_csv_bytes`, stopping at the table: an empty batch is
      refused, any other batch gives its table. */
  method RecordsToTable(records: seq<Record>) returns (r: Result<Table, EncodeError>)
    ensures r.Err? <==> |records| == 0
    ensures r.Ok? ==> IsTableOf(r.value, records)
  {
    if |records| == 0 {
      return Err(NoRecords);
    }
    var fieldnames := FieldNames(records);
    var rows: seq<seq<string>> := [];
    var i := 0;
    while i < |records|
      invariant i <= |records|
      invariant |rows| == i
      invariant forall k :: 0 <= k < i ==> rows[k] == Row(fieldnames, records[k])
    {
      rows := rows + [Row(fieldnames, records[i])];
      i := i + 1;
    }
    r := Ok(Table(fieldnames, rows));
  }

  // ---------------------------------------------------------------------
  // Properties of the table
  // ---------------------------------------------------------------------

  /** Reading a row back gives a value for every column: the record's own
      value for each of its fields, the empty string for the others. When
      every field of the record is a column, nothing of it is lost. */
  lemma {:induction false} RowRoundTrip(header: seq<string>, rec: Record)
    ensures var back := RowToRecord(header, Row(header, rec));
              && (forall f :: f in back <==> f in header)
              && (forall f :: f in back ==> back[f] == Cell(rec, f))
  {
    if |header| > 0 {
      RowRoundTrip(header[1..], rec);
      assert Row(header, rec)[1..] == Row(header[1..], rec);
      forall f
        ensures f in header <==> f == header[0] || f in header[1..]
      {
        if f in header && f != header[0] {
          var k :| 0 <= k < |header| && header[k] == f;
          assert header[1..][k - 1] == f;
        }
      }
    }
  }

  /** In a table of a batch every record's fields are columns, so each row
      reads back to the record itself, padded with empty strings for the
      columns other records brought in. */
  lemma TableKeepsEveryValue(t: Table, records: seq<Record>, i: nat)
    requires IsTableOf(t, records) && i < |records|
    ensures var back := RowToRecord(t.header, t.rows[i]);
              && (forall f :: f in records[i] ==> f in back && back[f] == records[i][f])
              && (forall f :: f in back && f !in records[i] ==> back[f] == "")
  {
    RowRoundTrip(t.header, records[i]);
    forall f | f in records[i]
      ensures f in t.header
    {
      assert f in KeyUnion(records);
    }
  }

  /** A batch has exactly one table: the header is determined by the field
      names alone. */
  lemma TableIsDetermined(t1: Table, t2: Table, records: seq<Record>)
    requires IsTableOf(t1, records) && IsTableOf(t2, records)
    ensures t1 == t2
  {
    SortedUnique(t1.header, t2.header);
  }
}
