/**
 * `collect_issuer_data` with the network taken out: the site's answer to the
 * request for a window is a parameter `respond`, either a page without the
 * `resultsTable` or the rows of that table. The loop requests the windows of
 * the ten-year span in order and concatenates the records of each answer.
 */
module History {
  import Windows
  import Records

  /** What the history page holds for one requested window. */
  datatype Response = NoTable | Table(rows: seq<Records.Row>)

  /** The records one answer contributes: none when the table is missing. */
  function WindowRecords(code: string, response: Response): seq<Records.Record> {
    match response
    case NoTable => []
    case Table(rows) => Records.TableRecords(code, rows)
  }

  /** The records of the answers to `ws`, concatenated in window order. */
  function IssuerRecords(code: string, ws: seq<Windows.Window>, respond: Windows.Window -> Response)
    : (records: seq<Records.Record>)
    ensures forall r :: r in records ==> r.issuer == code
  {
    if |ws| == 0 then []
    else IssuerRecords(code, ws[..|ws| - 1], respond) + WindowRecords(code, respond(ws[|ws| - 1]))
  }

  /** Splitting the windows splits the records at the same place. */
  lemma {:induction false} IssuerRecordsAppend(
    code: string, a: seq<Windows.Window>, b: seq<Windows.Window>, respond: Windows.Window -> Response)
    ensures IssuerRecords(code, a + b, respond)
      == IssuerRecords(code, a, respond) + IssuerRecords(code, b, respond)
    decreases |b|
  {
    if |b| > 0 {
      var b' := b[..|b| - 1];
      assert (a + b)[..|a + b| - 1] == a + b';
      IssuerRecordsAppend(code, a, b', respond);
    } else {
      assert a + b == a;
    }
  }

  /**
   * Lines 76-92 of `collect_issuer_data`: skip the header row, then turn
   * every row of at least nine cells into a record.
   */
  method ReadTable(code: string, table: seq<Records.Row>) returns (records: seq<Records.Record>)
    ensures records == Records.TableRecords(code, table)
  {
    var rows := if |table| == 0 then [] else table[1..];
    records := [];
    var i := 0;
    while i < |rows|
      invariant 0 <= i <= |rows|
      invariant records == Records.RowRecords(code, rows[..i])
    {
      var columns := rows[i];
      assert rows[..i + 1] == rows[..i] + [columns];
      Records.RowRecordsSnoc(code, rows[..i], columns);
      if |columns| >= Records.CellCount {
        records := records + [Records.ToRecord(code, columns)];
      }
      i := i + 1;
    }
    assert rows[..|rows|] == rows;
  }

  /** One iteration of the loop extends both the requested windows and the records by one window. */
  lemma LoopStep(code: string, first: int, start: int, end: int,
                 requested: seq<Windows.Window>, respond: Windows.Window -> Response)
    requires start < end
    requires Windows.Windows(first, end) == requested + Windows.Windows(start, end)
    ensures var window := Windows.Window(start, Windows.ChunkEnd(start, end));
      && Windows.Windows(first, end)
         == (requested + [window]) + Windows.Windows(Windows.ChunkEnd(start, end) + 1, end)
      && IssuerRecords(code, requested + [window], respond)
         == IssuerRecords(code, requested, respond) + WindowRecords(code, respond(window))
  {
    var window := Windows.Window(start, Windows.ChunkEnd(start, end));
    Windows.WindowsStep(start, end);
    assert (requested + [window])[..|requested|] == requested;
  }

  /**
   * The loop of `collect_issuer_data`, with `end` the current day. It
   * returns the windows it requested and the records it collected. The
   * windows depend on `end` alone, whatever the site answers: ten of them,
   * the last ending on `end`.
   */
  method CollectIssuerData(code: string, end: int, respond: Windows.Window -> Response)
    returns (requested: seq<Windows.Window>, data: seq<Records.Record>)
    ensures requested == Windows.Windows(end - Windows.SpanDays, end)
    ensures |requested| == 10 && requested[9].to == end
    ensures data == IssuerRecords(code, requested, respond)
    ensures forall r :: r in data ==> r.issuer == code
  {
    var start := end - Windows.SpanDays;
    requested := [];
    data := [];
    assert requested + Windows.Windows(start, end) == Windows.Windows(start, end);
    while start < end
      invariant Windows.Windows(end - Windows.SpanDays, end) == requested + Windows.Windows(start, end)
      invariant data == IssuerRecords(code, requested, respond)
      decreases end - start
    {
      var rangeEnd := Windows.Min(start + Windows.WindowDays, end);
      var window := Windows.Window(start, rangeEnd);
      var response := respond(window);
      LoopStep(code, end - Windows.SpanDays, start, end, requested, respond);
      requested := requested + [window];
      if response.NoTable? {
        start := rangeEnd + 1;
        continue;
      }
      var records := ReadTable(code, response.rows);
      data := data + records;
      start := rangeEnd + 1;
    }
    Windows.TenYearSpan(end);
  }
}
