/**
 * Row-to-record extraction of `collect_issuer_data`: the rows of the
 * `resultsTable` become trading records. HTML parsing is outside the model;
 * a table arrives as its rows, each row as the texts of its `td` cells.
 */
module Records {
  import Text
  import Selection

  /** The texts of one row's cells, in column order. */
  type Row = seq<string>

  /** A row yields a record only when it has at least this many cells. */
  const CellCount := 9

  /** One trading day of one issuer; every field is kept as trimmed text. */
  datatype Record = Record(
    issuer: string,
    date: string,
    lastPrice: string,
    max: string,
    min: string,
    averagePrice: string,
    percentChange: string,
    quantity: string,
    tradingVolume: string,
    totalVolume: string)

  /** The fields of a record in the column order of the output file. */
  function Fields(r: Record): seq<string> {
    [r.issuer, r.date, r.lastPrice, r.max, r.min, r.averagePrice,
     r.percentChange, r.quantity, r.tradingVolume, r.totalVolume]
  }

  predicate IsDataRow(row: Row) {
    |row| >= CellCount
  }

  /**
   * The record of a data row. Its first column is the issuer code; column
   * i (1..9) is cell i - 1 with the whitespace at both ends removed and
   * nothing else changed.
   */
  function ToRecord(code: string, row: Row): (r: Record)
    requires IsDataRow(row)
    ensures |Fields(r)| == 10 && Fields(r)[0] == code
    ensures forall i :: 1 <= i < 10 ==>
      Text.IsStripOf(Fields(r)[i], row[i - 1]) && Text.Trimmed(Fields(r)[i])
  {
    var r := Record(code, Text.Strip(row[0]), Text.Strip(row[1]), Text.Strip(row[2]),
      Text.Strip(row[3]), Text.Strip(row[4]), Text.Strip(row[5]),
      Text.Strip(row[6]), Text.Strip(row[7]), Text.Strip(row[8]));
    assert forall i :: 1 <= i < 10 ==>
      Text.IsStripOf(Fields(r)[i], row[i - 1]) && Text.Trimmed(Fields(r)[i]) by {
      forall i | 1 <= i < 10
        ensures Text.IsStripOf(Fields(r)[i], row[i - 1]) && Text.Trimmed(Fields(r)[i])
      {
        assert Fields(r)[i] == Text.Strip(row[i - 1]);
        Text.StripSpec(row[i - 1]);
        var a, b :| Text.StripSlice(row[i - 1], a, b) && Fields(r)[i] == row[i - 1][a..b];
      }
    }
    r
  }

  /**
   * The contract of `ToRecord` determines the record: any record with the
   * issuer code first and, in column i, a stripped form of cell i - 1 is
   * the record `ToRecord` builds.
   */
  lemma ToRecordUnique(code: string, row: Row, r: Record)
    requires IsDataRow(row)
    requires Fields(r)[0] == code
    requires forall i :: 1 <= i < 10 ==> Text.IsStripOf(Fields(r)[i], row[i - 1])
    ensures r == ToRecord(code, row)
  {
    var t := ToRecord(code, row);
    forall i | 1 <= i < 10
      ensures Fields(r)[i] == Fields(t)[i]
    {
      Text.StripUnique(Fields(r)[i], row[i - 1]);
      Text.StripUnique(Fields(t)[i], row[i - 1]);
    }
    FieldsInjective(r, t);
  }

  /** Cells after index 8 do not affect the record. */
  lemma ToRecordIgnoresExtraCells(code: string, row: Row, extra: Row)
    requires IsDataRow(row)
    ensures ToRecord(code, row + extra) == ToRecord(code, row)
    ensures ToRecord(code, row) == ToRecord(code, row[..CellCount])
  {
    assert forall i :: 0 <= i < CellCount ==> (row + extra)[i] == row[i] == row[..CellCount][i];
  }

  /** A record is determined by its column values. */
  lemma FieldsInjective(a: Record, b: Record)
    requires forall i :: 0 <= i < 10 ==> Fields(a)[i] == Fields(b)[i]
    ensures a == b
  {
    assert Fields(a)[0] == Fields(b)[0] && Fields(a)[1] == Fields(b)[1];
    assert Fields(a)[2] == Fields(b)[2] && Fields(a)[3] == Fields(b)[3];
    assert Fields(a)[4] == Fields(b)[4] && Fields(a)[5] == Fields(b)[5];
    assert Fields(a)[6] == Fields(b)[6] && Fields(a)[7] == Fields(b)[7];
    assert Fields(a)[8] == Fields(b)[8] && Fields(a)[9] == Fields(b)[9];
  }

  /** Records of the rows after the header: one per data row, in row order. */
  function RowRecords(code: string, rows: seq<Row>): (records: seq<Record>)
    ensures |records| <= |rows|
    ensures forall r :: r in records ==> r.issuer == code
  {
    if |rows| == 0 then []
    else
      var last := rows[|rows| - 1];
      var rest := RowRecords(code, rows[..|rows| - 1]);
      if IsDataRow(last) then rest + [ToRecord(code, last)] else rest
  }

  /** One more row adds its record when it has at least nine cells, and nothing otherwise. */
  lemma RowRecordsSnoc(code: string, rows: seq<Row>, row: Row)
    ensures RowRecords(code, rows + [row])
      == RowRecords(code, rows) + (if IsDataRow(row) then [ToRecord(code, row)] else [])
  {
    assert (rows + [row])[..|rows|] == rows;
  }

  /** `table.find_all("tr")[1:]`: the header row is dropped before the rows are read. */
  function TableRecords(code: string, rows: seq<Row>): (records: seq<Record>)
    ensures records != [] ==> |records| < |rows|
    ensures forall r :: r in records ==> r.issuer == code
  {
    if |rows| == 0 then [] else RowRecords(code, rows[1..])
  }

  /** Element-by-element description of the records of the rows after the header. */
  lemma {:induction false} RowRecordsSpec(code: string, rows: seq<Row>)
    ensures var records := RowRecords(code, rows);
      var kept := Selection.Positions(rows, IsDataRow);
      && |records| == |kept|
      && forall k :: 0 <= k < |records| ==> records[k] == ToRecord(code, rows[kept[k]])
  {
    if |rows| > 0 {
      var n := |rows|;
      var init := rows[..n - 1];
      var last := rows[n - 1];
      RowRecordsSpec(code, init);
      var records0, kept0 := RowRecords(code, init), Selection.Positions(init, IsDataRow);
      var records, kept := RowRecords(code, rows), Selection.Positions(rows, IsDataRow);
      var tail := if IsDataRow(last) then [n - 1] else [];
      assert kept == kept0 + tail;
      assert records == records0 + (if IsDataRow(last) then [ToRecord(code, last)] else []);
      forall k | 0 <= k < |records|
        ensures records[k] == ToRecord(code, rows[kept[k]])
      {
        if k < |records0| {
          assert records[k] == records0[k] && kept[k] == kept0[k];
          assert rows[kept0[k]] == init[kept0[k]];
        } else {
          assert kept[k] == n - 1;
        }
      }
    }
  }

  /**
   * The header row never yields a record, whatever its cells; row `i >= 1`
   * yields exactly one record when it has at least nine cells and none
   * otherwise, and the records follow the rows' order.
   */
  lemma TableRecordsSpec(code: string, rows: seq<Row>)
    requires |rows| > 0
    ensures var records := TableRecords(code, rows);
      var kept := Selection.Positions(rows[1..], IsDataRow);
      && |records| == |kept|
      && (forall k :: 0 <= k < |records| ==> records[k] == ToRecord(code, rows[kept[k] + 1]))
      && (forall i :: 1 <= i < |rows| ==> (i - 1 in kept <==> |rows[i]| >= CellCount))
  {
    RowRecordsSpec(code, rows[1..]);
  }

  /** Appending rows appends their records. */
  lemma {:induction false} RowRecordsAppend(code: string, a: seq<Row>, b: seq<Row>)
    ensures RowRecords(code, a + b) == RowRecords(code, a) + RowRecords(code, b)
    decreases |b|
  {
    if |b| > 0 {
      var b' := b[..|b| - 1];
      assert (a + b)[..|a + b| - 1] == a + b';
      RowRecordsAppend(code, a, b');
    } else {
      assert a + b == a;
    }
  }

  /** `n` rows of at least nine cells each yield exactly `n` records, row k giving record k. */
  lemma {:induction false} AllDataRows(code: string, rows: seq<Row>)
    requires forall i :: 0 <= i < |rows| ==> IsDataRow(rows[i])
    ensures var records := RowRecords(code, rows);
      && |records| == |rows|
      && forall k :: 0 <= k < |rows| ==> records[k] == ToRecord(code, rows[k])
  {
    if |rows| > 0 {
      AllDataRows(code, rows[..|rows| - 1]);
    }
  }

  /**
   * A table of a header followed by `n` rows of at least nine cells yields
   * exactly `n` records, the k-th from the k-th row after the header.
   */
  lemma HeaderPlusDataRows(code: string, header: Row, rows: seq<Row>)
    requires forall i :: 0 <= i < |rows| ==> IsDataRow(rows[i])
    ensures var records := TableRecords(code, [header] + rows);
      && |records| == |rows|
      && forall k :: 0 <= k < |rows| ==> records[k] == ToRecord(code, rows[k])
  {
    assert ([header] + rows)[1..] == rows;
    AllDataRows(code, rows);
  }
}
