/**
  The main thread's tabular state in app.js (`headers`, `rows`,
  `filteredRows`, `columnFilters`) as a value, the way `msgHandler` changes
  it on each message from the worker, and the data the export button hands
  to the spreadsheet writer. The class that holds this state in fields is
  in module Viewer.
*/
module TabularStore {
  import opened Common
  import opened Ingest
  import opened FilterEngine

  datatype Store = Store(headers: Row, rows: seq<Row>, filteredRows: seq<Row>, columnFilters: ColumnFilters)

  /** `msgHandler` reads `batch[0]` of the first batch, so that batch must
      hold a row; the worker never posts an empty batch. */
  predicate Receivable(msg: Message) {
    msg.Batch? && msg.start == 0 ==> msg.batch != []
  }

  predicate AllReceivable(msgs: seq<Message>) {
    forall i :: 0 <= i < |msgs| ==> Receivable(msgs[i])
  }

  /** `msgHandler`: the batch at start 0 restarts the table, its first row
      becoming the header row; any later batch is appended; after a batch the
      filtered view is the whole table again. Every other message (sheet
      names, done, error, filter results) leaves the state alone. */
  function Receive(s: Store, msg: Message): (r: Store)
    requires Receivable(msg)
    ensures r.columnFilters == s.columnFilters
    ensures msg.Batch? && msg.start == 0 ==> [r.headers] + r.rows == msg.batch && r.filteredRows == r.rows
    ensures msg.Batch? && msg.start != 0 ==> r.headers == s.headers && r.rows == s.rows + msg.batch && r.filteredRows == r.rows
    ensures !msg.Batch? ==> r == s
  {
    match msg
    case Batch(start, batch, _) =>
      if start == 0 then Store(batch[0], batch[1..], batch[1..], s.columnFilters)
      else Store(s.headers, s.rows + batch, s.rows + batch, s.columnFilters)
    case _ => s
  }

  /** The messages handled one after another, in the order they arrive. */
  function ReceiveAll(s: Store, msgs: seq<Message>): (r: Store)
    requires AllReceivable(msgs)
    ensures r.columnFilters == s.columnFilters
    decreases |msgs|
  {
    if msgs == [] then s else ReceiveAll(Receive(s, msgs[0]), msgs[1..])
  }

  // ---------------------------------------------------------------------
  // Receiving a whole parse
  // ---------------------------------------------------------------------

  lemma ReceiveSingle(s: Store, msg: Message)
    requires Receivable(msg)
    ensures AllReceivable([msg]) && ReceiveAll(s, [msg]) == Receive(s, msg)
  {
    assert [msg][1..] == [];
  }

  lemma ReceiveCons(s: Store, msg: Message, rest: seq<Message>)
    requires Receivable(msg) && AllReceivable(rest)
    ensures AllReceivable([msg] + rest) && ReceiveAll(s, [msg] + rest) == ReceiveAll(Receive(s, msg), rest)
  {
    assert ([msg] + rest)[0] == msg && ([msg] + rest)[1..] == rest;
    assert forall i :: 0 < i < |[msg] + rest| ==> ([msg] + rest)[i] == rest[i - 1];
  }

  /** Handling `a` and then `b` is handling `a + b`. */
  lemma {:induction false} ReceiveAllAppend(s: Store, a: seq<Message>, b: seq<Message>)
    requires AllReceivable(a) && AllReceivable(b)
    ensures AllReceivable(a + b)
    ensures ReceiveAll(s, a + b) == ReceiveAll(ReceiveAll(s, a), b)
    decreases |a|
  {
    assert forall i :: 0 <= i < |a + b| ==> (a + b)[i] == (if i < |a| then a[i] else b[i - |a|]);
    if a == [] {
      assert a + b == b;
    } else {
      assert (a + b)[0] == a[0];
      assert (a + b)[1..] == a[1..] + b;
      ReceiveAllAppend(Receive(s, a[0]), a[1..], b);
    }
  }

  /** Batches that do not start at row 0 append their rows to the table, in
      order, and leave the headers alone. */
  lemma {:induction false} ReceiveLaterBatches(s: Store, rows: seq<Row>, start: nat, total: int)
    requires start > 0
    ensures AllReceivable(Batches(rows, start, total))
    ensures ReceiveAll(s, Batches(rows, start, total))
         == if rows == [] then s else Store(s.headers, s.rows + rows, s.rows + rows, s.columnFilters)
    decreases |rows|
  {
    if rows != [] {
      var m := Min(BatchSize, |rows|);
      var b := Batch(start, rows[..m], total);
      var rest := Batches(rows[m..], start + m, total);
      ReceiveLaterBatches(Receive(s, b), rows[m..], start + m, total);
      ReceiveCons(s, b, rest);
      assert s.rows + rows[..m] + rows[m..] == s.rows + rows by {
        assert rows[..m] + rows[m..] == rows;
      }
    }
  }

  /** The batches of a parse, from row 0: whatever the table held before, the
      first row becomes the header row and the others the table. */
  lemma ReceiveFirstBatches(s: Store, rows: seq<Row>, total: int)
    requires rows != []
    ensures AllReceivable(Batches(rows, 0, total))
    ensures var r := ReceiveAll(s, Batches(rows, 0, total));
      r == Store(rows[0], rows[1..], rows[1..], s.columnFilters)
  {
    var m := Min(BatchSize, |rows|);
    var b := Batch(0, rows[..m], total);
    var rest := Batches(rows[m..], m, total);
    var s1 := Receive(s, b);
    assert s1 == Store(rows[0], rows[1..m], rows[1..m], s.columnFilters);
    ReceiveLaterBatches(s1, rows[m..], m, total);
    ReceiveCons(s, b, rest);
    assert rows[1..m] + rows[m..] == rows[1..];
  }

  /** What the main thread holds once it has handled every message of a
      parse. With two raw rows or more, the header row the worker computed is
      not used: the first normalised data row becomes the header row and is
      missing from the table, which holds the remaining data rows; the state
      of the previous file is gone and every row is as long as the header
      row. With fewer than two raw rows no batch is posted, so the previous
      file's table stays. */
  lemma ParseThenReceive(s: Store, sheets: seq<string>, raw: seq<seq<Cell>>, before: nat)
    ensures AllReceivable(ParseMessages(sheets, raw, before))
    ensures var r := ReceiveAll(s, ParseMessages(sheets, raw, before));
      var n := |HeaderRow(raw)|;
      && r.columnFilters == s.columnFilters
      && (|raw| <= 1 ==> r == s)
      && (|raw| >= 2 ==>
           && r.headers == NormRow(raw[1], n)
           && r.rows == NormRows(raw[2..], n)
           && |r.rows| == |raw| - 2
           && r.filteredRows == r.rows
           && |r.headers| == n
           && forall k :: 0 <= k < |r.rows| ==> |r.rows[k]| == |r.headers|)
  {
    var n := |HeaderRow(raw)|;
    var all := NormRows(DataRows(raw), n);
    ReceiveParse(s, sheets, raw, before);
    if |raw| >= 2 {
      ReceiveFirstBatches(s, all, |raw| - 1);
      TableRows(raw, n);
      var rest := NormRows(raw[2..], n);
      forall k | 0 <= k < |rest| ensures |rest[k]| == n {
        NormRowsAt(raw[2..], n, k);
      }
    } else {
      assert all == [];
    }
  }

  /** Of a parse's messages only the batches change the state. */
  lemma ReceiveParse(s: Store, sheets: seq<string>, raw: seq<seq<Cell>>, before: nat)
    ensures AllReceivable(ParseMessages(sheets, raw, before))
    ensures var bs := Batches(NormRows(DataRows(raw), |HeaderRow(raw)|), 0, |raw| - 1);
      AllReceivable(bs) && ReceiveAll(s, ParseMessages(sheets, raw, before)) == ReceiveAll(s, bs)
  {
    var all := NormRows(DataRows(raw), |HeaderRow(raw)|);
    var bs := Batches(all, 0, |raw| - 1);
    var done := Done(before + |all|, HeaderRow(raw));
    assert ParseMessages(sheets, raw, before) == [Sheets(sheets)] + bs + [done];
    BatchesReceivable(all, |raw| - 1);
    ReceiveFramed(s, Sheets(sheets), bs, done);
  }

  /** Messages other than batches around `bs` leave the state alone. */
  lemma ReceiveFramed(s: Store, first: Message, bs: seq<Message>, last: Message)
    requires !first.Batch? && !last.Batch? && AllReceivable(bs)
    ensures AllReceivable([first] + bs + [last])
    ensures ReceiveAll(s, [first] + bs + [last]) == ReceiveAll(s, bs)
  {
    ReceiveSingle(s, first);
    ReceiveAllAppend(s, [first], bs);
    ReceiveSingle(ReceiveAll(s, [first] + bs), last);
    ReceiveAllAppend(s, [first] + bs, [last]);
  }

  lemma BatchesReceivable(rows: seq<Row>, total: int)
    ensures AllReceivable(Batches(rows, 0, total))
  {
    BatchesShape(rows, 0, total);
    var bs := Batches(rows, 0, total);
    forall i | 0 <= i < |bs| ensures Receivable(bs[i]) {
      assert bs[i] in bs;
    }
  }

  /** The data rows after the first, normalised. */
  lemma TableRows(raw: seq<seq<Cell>>, n: nat)
    requires |raw| >= 2
    ensures var all := NormRows(DataRows(raw), n);
      && all[0] == NormRow(raw[1], n)
      && all[1..] == NormRows(raw[2..], n)
  {
    var all := NormRows(DataRows(raw), n);
    NormRowsAt(DataRows(raw), n, 0);
    forall k | 0 <= k < |all| - 1 ensures all[1..][k] == NormRows(raw[2..], n)[k] {
      NormRowsAt(DataRows(raw), n, k + 1);
      NormRowsAt(raw[2..], n, k);
    }
  }

  /** Every message of every parse can be handled. */
  lemma WorkerMessagesReceivable(sheets: seq<string>, raw: seq<seq<Cell>>, before: nat)
    ensures AllReceivable(ParseMessages(sheets, raw, before))
  {
    var all := NormRows(DataRows(raw), |HeaderRow(raw)|);
    BatchesReceivable(all, |raw| - 1);
    ReceiveAllAppend(Store([], [], [], []), [Sheets(sheets)], Batches(all, 0, |raw| - 1));
    ReceiveAllAppend(Store([], [], [], []), [Sheets(sheets)] + Batches(all, 0, |raw| - 1), [Done(before + |all|, HeaderRow(raw))]);
  }

  // ---------------------------------------------------------------------
  // Export
  // ---------------------------------------------------------------------

  /** The export button: nothing to export when the filtered view is empty,
      otherwise the header row followed by the filtered rows. */
  function ExportData(headers: Row, filtered: seq<Row>): (r: Option<seq<Row>>)
    ensures r.None? <==> filtered == []
    ensures r.Some? ==> |r.value| == |filtered| + 1 && r.value[0] == headers && r.value[1..] == filtered
  {
    if filtered == [] then None else Some([headers] + filtered)
  }

  /** A string cell as the spreadsheet reader hands it back: the empty
      string is falsy. */
  function AsCell(s: string): Cell {
    if s == "" then Falsy("") else Value(s)
  }

  /** A row of strings, read back cell by cell. */
  function AsCells(row: Row): (cells: seq<Cell>)
    ensures |cells| == |row|
  {
    seq(|row|, j requires 0 <= j < |row| => AsCell(row[j]))
  }

  /** An array-of-arrays of strings, read back row by row. */
  function AsSheet(aoa: seq<Row>): (raw: seq<seq<Cell>>)
    ensures |raw| == |aoa|
  {
    seq(|aoa|, i requires 0 <= i < |aoa| => AsCells(aoa[i]))
  }

  lemma CellRoundTrip(s: string)
    ensures HeaderText(AsCell(s)) == s && DataText(AsCell(s)) == s
  {
  }

  /** Parsing the exported sheet again gives back the header row and the
      filtered rows, when every filtered row is as long as the header row. */
  lemma ExportReimport(headers: Row, filtered: seq<Row>)
    requires filtered != []
    requires forall k :: 0 <= k < |filtered| ==> |filtered[k]| == |headers|
    ensures ExportData(headers, filtered).Some?
    ensures var raw := AsSheet(ExportData(headers, filtered).value);
      && HeaderRow(raw) == headers
      && NormRows(DataRows(raw), |headers|) == filtered
  {
    var raw := AsSheet([headers] + filtered);
    AsSheetCons(headers, filtered);
    HeaderRoundTrip(raw, headers);
    DataRoundTrip(filtered, |headers|);
  }

  lemma AsSheetCons(h: Row, rows: seq<Row>)
    ensures AsSheet([h] + rows) == [AsCells(h)] + AsSheet(rows)
  {
  }

  lemma HeaderRoundTrip(raw: seq<seq<Cell>>, headers: Row)
    requires raw != [] && raw[0] == AsCells(headers)
    ensures HeaderRow(raw) == headers
  {
    forall j | 0 <= j < |headers| ensures HeaderRow(raw)[j] == headers[j] {
      CellRoundTrip(headers[j]);
    }
  }

  lemma RowRoundTrip(row: Row)
    ensures NormRow(AsCells(row), |row|) == row
  {
    forall j | 0 <= j < |row| ensures NormRow(AsCells(row), |row|)[j] == row[j] {
      CellRoundTrip(row[j]);
    }
  }

  lemma DataRoundTrip(rows: seq<Row>, n: nat)
    requires forall k :: 0 <= k < |rows| ==> |rows[k]| == n
    ensures NormRows(AsSheet(rows), n) == rows
  {
    var back := NormRows(AsSheet(rows), n);
    forall k | 0 <= k < |rows| ensures back[k] == rows[k] {
      NormRowsAt(AsSheet(rows), n, k);
      RowRoundTrip(rows[k]);
    }
  }
}
