/**
  The ingestion worker of worker.js as an object: its module-level
  `parsedRows` and `headers`, plus the messages it has posted so far
  (`outbox`). `Parse` and `Filter` are the two branches of its message
  handler; each is proved to post exactly what module Ingest specifies.
*/
module SheetWorker {
  import opened Common
  import opened Text
  import opened Ingest

  /** One row brought to `n` cells in a fresh array, cell by cell. */
  method NormalizeRow(r: seq<Cell>, n: nat) returns (out: Row)
    ensures out == NormRow(r, n)
  {
    var a := new string[n];
    for j := 0 to n
      invariant forall p :: 0 <= p < j ==> a[p] == (if p < |r| then DataText(r[p]) else "")
    {
      a[j] := if j < |r| then DataText(r[j]) else "";
    }
    out := a[..];
  }

  /** `batch.map(r => ...)`: every row of a batch normalised to `n` cells. */
  method NormalizeBatch(batch: seq<seq<Cell>>, n: nat) returns (norm: seq<Row>)
    ensures norm == NormRows(batch, n)
  {
    norm := [];
    for k := 0 to |batch|
      invariant norm == NormRows(batch[..k], n)
    {
      var out := NormalizeRow(batch[k], n);
      norm := norm + [out];
      assert batch[..k + 1][..k] == batch[..k];
    }
    assert batch[..|batch|] == batch;
  }

  /** Whether some targeted cell of `row` (every cell when there is no target
      list) is non-empty and contains `q` once lower-cased. */
  method ScanRow(row: Row, q: string, targetCols: Option<seq<int>>) returns (matched: bool)
    ensures matched == RowHit(row, q, targetCols)
  {
    matched := false;
    if targetCols.Some? {
      var cs := targetCols.value;
      for k := 0 to |cs|
        invariant forall p :: 0 <= p < k ==> !(0 <= cs[p] < |row| && CellHit(row[cs[p]], q))
      {
        var c := cs[k];
        if 0 <= c < |row| && CellHit(row[c], q) {
          matched := true;
          break;
        }
      }
    } else {
      for c := 0 to |row|
        invariant forall p :: 0 <= p < c ==> !CellHit(row[p], q)
      {
        if CellHit(row[c], q) {
          matched := true;
          break;
        }
      }
    }
  }

  /** What the batching loop keeps: after the rounds so far, the first `d` of
      the normalised data rows `all` have been appended to `rows0` and posted
      on `out0`, BatchSize per batch; `i` is the next raw row to read. */
  ghost predicate BatchLoopInv(all: seq<Row>, total: int, i: int, d: int,
                               rows0: seq<Row>, out0: seq<Message>, rows: seq<Row>, out: seq<Message>)
  {
    && 0 <= d <= |all|
    && (d == i - 1 || (d == |all| && |all| <= i - 1))
    && (d % BatchSize == 0 || d == |all|)
    && rows == rows0 + all[..d]
    && out == out0 + Batches(all[..d], 0, total)
  }

  lemma BatchLoopStart(all: seq<Row>, total: int, rows0: seq<Row>, out0: seq<Message>)
    ensures BatchLoopInv(all, total, 1, 0, rows0, out0, rows0, out0)
  {
    assert all[..0] == [];
  }

  /** The raw rows read in one round normalise to the next data rows. */
  lemma BatchLoopSlice(raw: seq<seq<Cell>>, n: nat, i: int)
    requires 1 <= i < |raw|
    ensures var all := NormRows(DataRows(raw), n);
      var norm := NormRows(raw[i..Min(i + BatchSize, |raw|)], n);
      && |all| == |raw| - 1
      && |norm| == Min(BatchSize, |all| - (i - 1))
      && norm == all[i - 1..i - 1 + |norm|]
  {
    NormRowsSlice(raw, n, i, Min(i + BatchSize, |raw|));
  }

  /** One round of the batching loop: appending and posting the next data
      rows as one batch keeps the invariant. */
  lemma BatchLoopStep(all: seq<Row>, total: int, i: int, d: int, norm: seq<Row>,
                      rows0: seq<Row>, out0: seq<Message>, rows: seq<Row>, out: seq<Message>)
    requires i - 1 < |all|
    requires BatchLoopInv(all, total, i, d, rows0, out0, rows, out)
    requires |norm| == Min(BatchSize, |all| - (i - 1)) && norm == all[i - 1..i - 1 + |norm|]
    ensures BatchLoopInv(all, total, i + BatchSize, d + |norm|, rows0, out0,
                         rows + norm, out + [Batch(i - 1, norm, total)])
  {
    assert d == i - 1;
    BatchesGrow(all, d, total);
    GrowBoth(rows0, all[..d], norm, out0, Batches(all[..d], 0, total), Batch(d, norm, total));
    assert all[..d] + norm == all[..d + |norm|];
  }

  lemma GrowBoth(rows0: seq<Row>, done: seq<Row>, norm: seq<Row>, out0: seq<Message>, posted: seq<Message>, b: Message)
    ensures (rows0 + done) + norm == rows0 + (done + norm)
    ensures (out0 + posted) + [b] == out0 + (posted + [b])
  {
  }

  lemma BatchLoopEnd(all: seq<Row>, total: int, i: int, d: int,
                     rows0: seq<Row>, out0: seq<Message>, rows: seq<Row>, out: seq<Message>)
    requires |all| <= i - 1
    requires BatchLoopInv(all, total, i, d, rows0, out0, rows, out)
    ensures rows == rows0 + all
    ensures out == out0 + Batches(all, 0, total)
  {
    assert all[..d] == all;
  }

  /** What the scanning loop keeps after looking at rows `0 .. i-1`: it
      found their matches, posted their chunks, and has not yet reached the
      row `e` after which it stops. */
  ghost predicate ScanLoopInv(rows: seq<Row>, q: string, target: Option<seq<int>>, maxResults: Option<int>,
                              e: nat, i: nat, indices: seq<nat>, out0: seq<Message>, out: seq<Message>)
  {
    && i <= e <= |rows|
    && indices == Matched(rows[..i], q, target)
    && out == out0 + Chunks(rows, q, target, i)
    && (CapActive(maxResults) ==> ScanFrom(rows, q, target, maxResults.value, i) == e)
    && (!CapActive(maxResults) ==> e == |rows|)
  }

  lemma ScanLoopStart(rows: seq<Row>, q: string, target: Option<seq<int>>, maxResults: Option<int>, out0: seq<Message>)
    ensures ScanLoopInv(rows, q, target, maxResults, ScanEnd(rows, q, target, maxResults), 0, [], out0, out0)
  {
    assert rows[..0] == [];
  }

  /** One round of the scanning loop: row `i` is tested, its index recorded
      if it hits, the chunk (if any) posted; the scan either stops at `e` or
      the invariant holds for the next row. */
  lemma ScanLoopStep(rows: seq<Row>, q: string, target: Option<seq<int>>, maxResults: Option<int>,
                     e: nat, i: nat, indices: seq<nat>, out0: seq<Message>, out: seq<Message>,
                     indices': seq<nat>, out': seq<Message>)
    requires i < |rows|
    requires ScanLoopInv(rows, q, target, maxResults, e, i, indices, out0, out)
    requires indices' == indices + (if RowHit(rows[i], q, target) then [i] else [])
    requires out' == out + ChunkAfter(indices')
    ensures indices' == Matched(rows[..i + 1], q, target)
    ensures out' == out0 + Chunks(rows, q, target, i + 1)
    ensures CapActive(maxResults) && |indices'| >= maxResults.value ==> e == i + 1
    ensures !(CapActive(maxResults) && |indices'| >= maxResults.value) ==>
      ScanLoopInv(rows, q, target, maxResults, e, i + 1, indices', out0, out')
  {
    MatchedStep(rows, q, target, i);
    assert Chunks(rows, q, target, i + 1) == Chunks(rows, q, target, i) + ChunkAfter(indices');
  }

  class Worker {
    /** All normalised data rows parsed so far; never reset, only appended to. */
    var parsedRows: seq<Row>
    /** The header row of the last parsed sheet. */
    var headers: Row
    /** Every message posted to the main thread, oldest first. */
    var outbox: seq<Message>

    constructor ()
      ensures parsedRows == [] && headers == [] && outbox == []
    {
      parsedRows, headers, outbox := [], [], [];
    }

    /** The `parse` command. A codec failure posts an `error` message and
        changes nothing else; a decoded sheet replaces `headers`, appends its
        normalised data rows to `parsedRows` and posts the sheet names, one
        `batch` per BatchSize rows and a closing `done`. */
    method Parse(decoded: Decoded)
      modifies this
      ensures decoded.Unreadable? ==>
        && parsedRows == old(parsedRows) && headers == old(headers)
        && outbox == old(outbox) + [Error(decoded.message)]
      ensures decoded.SheetFailed? ==>
        && parsedRows == old(parsedRows) && headers == old(headers)
        && outbox == old(outbox) + [Sheets(decoded.sheets), Error(decoded.message)]
      ensures decoded.Sheet? ==>
        && headers == HeaderRow(decoded.raw)
        && parsedRows == old(parsedRows) + NormRows(DataRows(decoded.raw), |headers|)
        && outbox == old(outbox) + ParseMessages(decoded.sheets, decoded.raw, |old(parsedRows)|)
    {
      match decoded {
        case Unreadable(message) =>
          outbox := outbox + [Error(message)];
        case SheetFailed(sheets, message) =>
          outbox := outbox + [Sheets(sheets), Error(message)];
        case Sheet(sheets, raw) =>
          outbox := outbox + [Sheets(sheets)];
          headers := HeaderRow(raw);
          PostBatches(raw);
          outbox := outbox + [Done(|parsedRows|, headers)];
      }
    }

    /** The batching loop of `parse`: data rows `raw[1..]` go out BatchSize at
        a time, each batch normalised to the header width and appended to
        `parsedRows` before it is posted. */
    method PostBatches(raw: seq<seq<Cell>>)
      modifies this`parsedRows, this`outbox
      ensures parsedRows == old(parsedRows) + NormRows(DataRows(raw), |headers|)
      ensures outbox == old(outbox) + Batches(NormRows(DataRows(raw), |headers|), 0, |raw| - 1)
    {
      ghost var all := NormRows(DataRows(raw), |headers|);
      ghost var rows0, out0 := parsedRows, outbox;
      assert |raw| <= 1 ==> all == [];
      var i := 1;
      ghost var d := 0;
      BatchLoopStart(all, |raw| - 1, rows0, out0);
      while i < |raw|
        invariant 1 <= i && (|raw| <= 1 || |all| == |raw| - 1)
        invariant BatchLoopInv(all, |raw| - 1, i, d, rows0, out0, parsedRows, outbox)
      {
        var batch := raw[i..Min(i + BatchSize, |raw|)];
        var norm := NormalizeBatch(batch, |headers|);
        BatchLoopSlice(raw, |headers|, i);
        BatchLoopStep(all, |raw| - 1, i, d, norm, rows0, out0, parsedRows, outbox);
        parsedRows := parsedRows + norm;
        outbox := outbox + [Batch(i - 1, norm, |raw| - 1)];
        i := i + BatchSize;
        d := d + |norm|;
      }
      BatchLoopEnd(all, |raw| - 1, i, d, rows0, out0, parsedRows, outbox);
    }

    /** The `filter` command. A falsy query posts every row index; otherwise
        the rows are scanned for hits and `filterDone` carries what was found. */
    method Filter(query: Cell, cols: Option<seq<int>>, maxResults: Option<int>)
      modifies this`outbox
      ensures outbox == old(outbox) + FilterMessages(parsedRows, query, cols, maxResults)
    {
      if !query.Value? {
        var indices := Range(|parsedRows|);
        outbox := outbox + [FilterDone(indices)];
        return;
      }
      var q := Lower(query.shown);
      var targetCols := TargetCols(cols);
      var indices := Scan(q, targetCols, maxResults);
      outbox := outbox + [FilterDone(indices)];
    }

    /** The scanning loop of `filter`: rows are tested in order, a
        `filterBatch` is posted each time the number of hits is a positive
        multiple of ChunkSize, and an active cap ends the scan early. */
    method Scan(q: string, targetCols: Option<seq<int>>, maxResults: Option<int>) returns (indices: seq<nat>)
      modifies this`outbox
      ensures indices == Matched(parsedRows[..ScanEnd(parsedRows, q, targetCols, maxResults)], q, targetCols)
      ensures outbox == old(outbox) + Chunks(parsedRows, q, targetCols, ScanEnd(parsedRows, q, targetCols, maxResults))
    {
      var rows := parsedRows;
      ghost var e := ScanEnd(rows, q, targetCols, maxResults);
      indices := [];
      var i := 0;
      ScanLoopStart(rows, q, targetCols, maxResults, outbox);
      while i < |rows|
        invariant ScanLoopInv(rows, q, targetCols, maxResults, e, i, indices, old(outbox), outbox)
      {
        var matched := ScanRow(rows[i], q, targetCols);
        ghost var indices0, outbox0 := indices, outbox;
        if matched {
          indices := indices + [i];
        }
        if |indices| > 0 && |indices| % ChunkSize == 0 {
          outbox := outbox + [FilterBatch(indices[|indices| - ChunkSize..])];
        }
        ScanLoopStep(rows, q, targetCols, maxResults, e, i, indices0, old(outbox), outbox0, indices, outbox);
        if CapActive(maxResults) && |indices| >= maxResults.value {
          return;
        }
        i := i + 1;
      }
    }
  }
}
