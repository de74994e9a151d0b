/**
  What the ingestion worker (worker.js) computes, stated as functions over
  the array-of-arrays the spreadsheet codec hands it, with the properties of
  those functions. The class that carries the worker's mutable state and
  runs the loops is in module SheetWorker.
*/
module Ingest {
  import opened Common
  import opened Text

  /** One cell of the codec's array-of-arrays, as the worker sees it.
      `shown` is JavaScript's `String(v)` of the value: a falsy value such as
      0, false or "" is `Falsy("0")`, `Falsy("false")`, `Falsy("")`;
      a missing cell (`undefined`) is `Undefined`. */
  datatype Cell = Undefined | Falsy(shown: string) | Value(shown: string)

  /** What the spreadsheet codec makes of the uploaded bytes. */
  datatype Decoded =
    | Unreadable(message: string)                        // reading the workbook threw
    | SheetFailed(sheets: seq<string>, message: string)  // sheet names known, converting the sheet threw
    | Sheet(sheets: seq<string>, raw: seq<seq<Cell>>)    // row 0 is the header row

  /** Messages the worker posts to the main thread. */
  datatype Message =
    | Sheets(names: seq<string>)
    | Batch(start: int, batch: seq<Row>, total: int)
    | Done(total: int, headers: Row)
    | Error(message: string)
    | FilterBatch(indicesChunk: seq<nat>)
    | FilterDone(indices: seq<nat>)

  /** Rows per posted `batch` message. */
  const BatchSize: nat := 1000
  /** Match indices per posted `filterBatch` message. */
  const ChunkSize: nat := 2000

  // ---------------------------------------------------------------------
  // Parsing: header row, row normalisation, batching
  // ---------------------------------------------------------------------

  /** A header cell: `String(h || '')`, so every falsy value becomes "". */
  function HeaderText(c: Cell): (r: string)
    ensures r == "" <==> !c.Value? || c.shown == ""
    ensures c.Value? ==> r == c.shown
  {
    match c
    case Value(s) => s
    case _ => ""
  }

  /** A data cell: `r[j] !== undefined ? String(r[j]) : ''`, so only a missing cell becomes "". */
  function DataText(c: Cell): (r: string)
    ensures r == "" <==> c.Undefined? || c.shown == ""
    ensures !c.Undefined? ==> r == c.shown
  {
    match c
    case Undefined => ""
    case Falsy(s) => s
    case Value(s) => s
  }

  /** The worker's `headers` after parsing `raw`: one text per cell of the
      first row, none for an empty sheet. */
  function HeaderRow(raw: seq<seq<Cell>>): (h: Row)
    ensures raw == [] ==> h == []
    ensures raw != [] ==> |h| == |raw[0]| && forall j :: 0 <= j < |h| ==> h[j] == HeaderText(raw[0][j])
  {
    if raw == [] then [] else seq(|raw[0]|, j requires 0 <= j < |raw[0]| => HeaderText(raw[0][j]))
  }

  /** `raw` without its header row. */
  function DataRows(raw: seq<seq<Cell>>): seq<seq<Cell>> {
    if raw == [] then [] else raw[1..]
  }

  /** A data row brought to `n` columns: a longer row is cut, a shorter one
      is padded with "", since cells past the end of `r` read as missing. */
  function NormRow(r: seq<Cell>, n: nat): (x: Row)
    ensures |x| == n
    ensures forall j :: 0 <= j < n && j < |r| ==> x[j] == DataText(r[j])
    ensures forall j :: |r| <= j < n ==> x[j] == ""
  {
    seq(n, j requires 0 <= j < n => if j < |r| then DataText(r[j]) else "")
  }

  /** `batch.map(r => NormRow(r, n))`. */
  function NormRows(rs: seq<seq<Cell>>, n: nat): (r: seq<Row>)
    ensures |r| == |rs|
    ensures forall k :: 0 <= k < |r| ==> |r[k]| == n
  {
    if rs == [] then [] else NormRows(rs[..|rs| - 1], n) + [NormRow(rs[|rs| - 1], n)]
  }

  lemma {:induction false} NormRowsAt(rs: seq<seq<Cell>>, n: nat, k: nat)
    requires k < |rs|
    ensures NormRows(rs, n)[k] == NormRow(rs[k], n)
    decreases |rs|
  {
    if k < |rs| - 1 {
      NormRowsAt(rs[..|rs| - 1], n, k);
    }
  }

  /** The `batch` messages for `rows`, cut into pieces of BatchSize, the first
      one starting at data row `start`. */
  function Batches(rows: seq<Row>, start: nat, total: int): (bs: seq<Message>)
    ensures bs == [] <==> rows == []
    ensures |bs| <= |rows|
    decreases |rows|
  {
    if rows == [] then []
    else
      var m := Min(BatchSize, |rows|);
      [Batch(start, rows[..m], total)] + Batches(rows[m..], start + m, total)
  }

  /** The rows carried by the `batch` messages of `msgs`, in order. */
  function Flatten(msgs: seq<Message>): seq<Row> {
    if msgs == [] then []
    else (if msgs[0].Batch? then msgs[0].batch else []) + Flatten(msgs[1..])
  }

  /** Everything posted for a successfully decoded sheet, when the worker
      already held `before` rows. */
  function ParseMessages(sheets: seq<string>, raw: seq<seq<Cell>>, before: nat): (out: seq<Message>)
    ensures |out| >= 2 && out[0] == Sheets(sheets)
    ensures out[|out| - 1] == Done(before + |DataRows(raw)|, HeaderRow(raw))
    ensures |out| == 2 <==> |raw| <= 1
  {
    var headers := HeaderRow(raw);
    var rows := NormRows(DataRows(raw), |headers|);
    [Sheets(sheets)] + Batches(rows, 0, |raw| - 1) + [Done(before + |rows|, headers)]
  }

  // ---------------------------------------------------------------------
  // Properties of parsing
  // ---------------------------------------------------------------------

  /** Headers blank out every falsy value; data rows blank out only missing
      cells, so a data cell 0 is "0" while a header 0 is "". */
  lemma HeaderVersusData(c: Cell)
    ensures HeaderText(c) == "" <==> !c.Value? || c.shown == ""
    ensures DataText(c) == "" <==> c.Undefined? || c.shown == ""
    ensures HeaderText(Falsy("0")) == "" && DataText(Falsy("0")) == "0"
  {
  }

  lemma FlattenAppend(a: seq<Message>, b: seq<Message>)
    ensures Flatten(a + b) == Flatten(a) + Flatten(b)
  {
    if a == [] {
      assert a + b == b;
    } else {
      assert (a + b)[1..] == a[1..] + b;
      FlattenAppend(a[1..], b);
    }
  }

  /** Concatenating the batches in the order they are posted gives back
      exactly the rows: nothing lost, duplicated or reordered. */
  lemma {:induction false} BatchesFlatten(rows: seq<Row>, start: nat, total: int)
    ensures Flatten(Batches(rows, start, total)) == rows
    decreases |rows|
  {
    if rows != [] {
      var m := Min(BatchSize, |rows|);
      var rest := Batches(rows[m..], start + m, total);
      BatchesFlatten(rows[m..], start + m, total);
      assert Batches(rows, start, total) == [Batch(start, rows[..m], total)] + rest;
      FlattenAppend([Batch(start, rows[..m], total)], rest);
      assert Flatten([Batch(start, rows[..m], total)]) == rows[..m];
      assert rows[..m] + rows[m..] == rows;
    }
  }

  /** The k-th batch: it holds the rows from k*BatchSize on, at most BatchSize
      of them and at least one, exactly BatchSize unless it is the last; its
      `start` counts the rows posted before it and its `total` is the same for all. */
  lemma {:induction false} BatchAt(rows: seq<Row>, start: nat, total: int, k: nat)
    requires k < |Batches(rows, start, total)|
    ensures BatchSize * k < |rows|
    ensures Batches(rows, start, total)[k]
         == Batch(start + BatchSize * k,
                  rows[BatchSize * k .. Min(BatchSize * (k + 1), |rows|)],
                  total)
    ensures k < |Batches(rows, start, total)| - 1 ==> BatchSize * (k + 1) < |rows|
    ensures k == |Batches(rows, start, total)| - 1 ==> |rows| <= BatchSize * (k + 1)
    decreases |rows|
  {
    var m := Min(BatchSize, |rows|);
    var bs := Batches(rows, start, total);
    var rest := Batches(rows[m..], start + m, total);
    assert bs == [Batch(start, rows[..m], total)] + rest;
    if k == 0 {
      if |rest| > 0 {
        BatchAt(rows[m..], start + m, total, 0);
      } else {
        assert rows[m..] == [];
      }
    } else {
      assert bs[k] == rest[k - 1] && |bs| == |rest| + 1;
      BatchAt(rows[m..], start + m, total, k - 1);
      assert m == BatchSize;
      var lo, hi := BatchSize * (k - 1), Min(BatchSize * k, |rows| - m);
      assert rest[k - 1] == Batch(start + m + lo, rows[m..][lo..hi], total);
      SliceOfSuffix(rows, m, lo, hi);
      assert m + lo == BatchSize * k && m + hi == Min(BatchSize * (k + 1), |rows|);
    }
  }

  /** Batch shape: every batch is non-empty and at most BatchSize rows, only
      the last may be shorter, the k-th starts at start + k*BatchSize and all
      carry the same total. */
  lemma BatchesShape(rows: seq<Row>, start: nat, total: int)
    ensures forall b :: b in Batches(rows, start, total) ==>
      b.Batch? && b.total == total && 0 < |b.batch| <= BatchSize
    ensures forall k :: 0 <= k < |Batches(rows, start, total)| ==>
      && Batches(rows, start, total)[k].start == start + BatchSize * k
      && (k < |Batches(rows, start, total)| - 1 ==> |Batches(rows, start, total)[k].batch| == BatchSize)
  {
    forall k | 0 <= k < |Batches(rows, start, total)|
      ensures Batches(rows, start, total)[k].Batch?
      ensures Batches(rows, start, total)[k].start == start + BatchSize * k
      ensures 0 < |Batches(rows, start, total)[k].batch| <= BatchSize
      ensures k < |Batches(rows, start, total)| - 1 ==> |Batches(rows, start, total)[k].batch| == BatchSize
    {
      BatchAt(rows, start, total, k);
    }
  }

  /** The rows posted before the k-th batch are exactly the first `start`
      rows, i.e. a batch's `start` is the number of rows posted before it. */
  lemma BatchesPrefix(rows: seq<Row>, start: nat, total: int, k: nat)
    requires k < |Batches(rows, start, total)|
    ensures BatchSize * k < |rows| && Batches(rows, start, total)[k].Batch?
    ensures Flatten(Batches(rows, start, total)[..k]) == rows[..BatchSize * k]
    ensures Batches(rows, start, total)[k].start == start + |Flatten(Batches(rows, start, total)[..k])|
  {
    var bs := Batches(rows, start, total);
    BatchesFlatten(rows, start, total);
    assert bs == bs[..k] + bs[k..];
    FlattenAppend(bs[..k], bs[k..]);
    BatchesFlattenSuffix(rows, start, total, k);
    BatchAt(rows, start, total, k);
    assert rows == rows[..BatchSize * k] + rows[BatchSize * k..];
  }

  lemma {:induction false} BatchesFlattenSuffix(rows: seq<Row>, start: nat, total: int, k: nat)
    requires k < |Batches(rows, start, total)|
    ensures BatchSize * k < |rows|
    ensures Flatten(Batches(rows, start, total)[k..]) == rows[BatchSize * k..]
    decreases k
  {
    var m := Min(BatchSize, |rows|);
    var rest := Batches(rows[m..], start + m, total);
    assert Batches(rows, start, total) == [Batch(start, rows[..m], total)] + rest;
    if k == 0 {
      BatchesFlatten(rows, start, total);
    } else {
      BatchAt(rows, start, total, k);
      assert m == BatchSize;
      BatchesFlattenSuffix(rows[m..], start + m, total, k - 1);
      assert Batches(rows, start, total)[k..] == rest[k - 1..];
      assert rows[m..][BatchSize * (k - 1)..] == rows[BatchSize * k..];
    }
  }

  /** Batching the first `d` rows, `d` a multiple of BatchSize, and then the
      rest from `d` on gives the same batches as batching all rows at once. */
  lemma BatchesSplit(rows: seq<Row>, start: nat, total: int, d: nat)
    requires d <= |rows| && d % BatchSize == 0
    ensures Batches(rows, start, total) == Batches(rows[..d], start, total) + Batches(rows[d..], start + d, total)
  {
    assert rows == rows[..d] + rows[d..];
    BatchesAppend(rows[..d], rows[d..], start, total);
  }

  /** `BatchesSplit` over the rows cut into a first part of whole batches and
      the rest; by induction on the first part. */
  lemma {:induction false} BatchesAppend(a: seq<Row>, b: seq<Row>, start: nat, total: int)
    requires |a| % BatchSize == 0
    ensures Batches(a + b, start, total) == Batches(a, start, total) + Batches(b, start + |a|, total)
    decreases |a|
  {
    if a == [] {
      assert a + b == b;
    } else {
      var head := Batch(start, a[..BatchSize], total);
      assert (a + b)[..BatchSize] == a[..BatchSize];
      assert (a + b)[BatchSize..] == a[BatchSize..] + b;
      BatchesAppend(a[BatchSize..], b, start + BatchSize, total);
      assert Batches(a, start, total) == [head] + Batches(a[BatchSize..], start + BatchSize, total);
    }
  }

  /** One round of the batching loop: the batches of the first `d + m` rows
      are those of the first `d` rows followed by one batch of the next `m`. */
  lemma BatchesGrow(rows: seq<Row>, d: nat, total: int)
    requires d < |rows| && d % BatchSize == 0
    ensures var m := Min(BatchSize, |rows| - d);
      Batches(rows[..d + m], 0, total) == Batches(rows[..d], 0, total) + [Batch(d, rows[d..d + m], total)]
  {
    var m := Min(BatchSize, |rows| - d);
    var grown := rows[..d + m];
    BatchesSplit(grown, 0, total, d);
    assert grown[..d] == rows[..d];
    var last := rows[d..d + m];
    assert grown[d..] == last;
    assert Min(BatchSize, |last|) == m && last[m..] == [] && last[..m] == last;
    assert Batches(last, d, total) == [Batch(d, last, total)] + Batches([], d + m, total);
  }

  /** The raw rows `raw[i..j]` normalise to the normalised data rows `i-1 .. j-1`. */
  lemma NormRowsSlice(raw: seq<seq<Cell>>, n: nat, i: nat, j: nat)
    requires 1 <= i <= j <= |raw|
    ensures NormRows(raw[i..j], n) == NormRows(DataRows(raw), n)[i - 1..j - 1]
  {
    var all := NormRows(DataRows(raw), n);
    forall k | 0 <= k < j - i ensures NormRows(raw[i..j], n)[k] == all[i - 1..j - 1][k] {
      NormRowsAt(raw[i..j], n, k);
      NormRowsAt(DataRows(raw), n, i - 1 + k);
      assert raw[i..j][k] == raw[i + k] == DataRows(raw)[i - 1 + k];
    }
  }

  /** Every row of every posted batch has exactly as many cells as the header row. */
  lemma BatchRowsMatchHeaders(raw: seq<seq<Cell>>, total: int)
    ensures var n := |HeaderRow(raw)|;
      var bs := Batches(NormRows(DataRows(raw), n), 0, total);
      forall k, i :: 0 <= k < |bs| && bs[k].Batch? && 0 <= i < |bs[k].batch| ==> |bs[k].batch[i]| == n
  {
    var n := |HeaderRow(raw)|;
    var rows := NormRows(DataRows(raw), n);
    var bs := Batches(rows, 0, total);
    forall k, i | 0 <= k < |bs| && bs[k].Batch? && 0 <= i < |bs[k].batch| ensures |bs[k].batch[i]| == n {
      BatchAt(rows, 0, total, k);
      assert bs[k].batch[i] == rows[BatchSize * k + i];
    }
  }

  /** The whole parse, message by message: a `sheets` message, batches that
      concatenate to the normalised data rows, and a `done` message. */
  lemma ParseMessagesShape(sheets: seq<string>, raw: seq<seq<Cell>>, before: nat)
    ensures Flatten(ParseMessages(sheets, raw, before)) == NormRows(DataRows(raw), |HeaderRow(raw)|)
  {
    var rows := NormRows(DataRows(raw), |HeaderRow(raw)|);
    ParseMessagesUnfold(sheets, raw, before);
    FramedBatchesFlatten(Sheets(sheets), rows, |raw| - 1, Done(before + |rows|, HeaderRow(raw)));
  }

  /** Batches framed by two messages that are not batches carry exactly the rows. */
  lemma FramedBatchesFlatten(first: Message, rows: seq<Row>, total: int, last: Message)
    requires !first.Batch? && !last.Batch?
    ensures Flatten([first] + Batches(rows, 0, total) + [last]) == rows
  {
    FlattenFramed(first, Batches(rows, 0, total), last);
    BatchesFlatten(rows, 0, total);
  }

  /** A parse posts `sheets`, the batches of the normalised data rows, and `done`. */
  lemma ParseMessagesUnfold(sheets: seq<string>, raw: seq<seq<Cell>>, before: nat)
    ensures var rows := NormRows(DataRows(raw), |HeaderRow(raw)|);
      ParseMessages(sheets, raw, before)
      == [Sheets(sheets)] + Batches(rows, 0, |raw| - 1) + [Done(before + |rows|, HeaderRow(raw))]
  {
  }

  /** Messages other than batches around `bs` carry no rows. */
  lemma FlattenFramed(first: Message, bs: seq<Message>, last: Message)
    requires !first.Batch? && !last.Batch?
    ensures var out := [first] + bs + [last];
      out[0] == first && out[|out| - 1] == last && Flatten(out) == Flatten(bs)
  {
    FlattenAppend([first], bs);
    FlattenAppend([first] + bs, [last]);
    assert Flatten([first]) == [] && Flatten([last]) == [];
  }

  /** An empty sheet and a header-only sheet post no batch at all. */
  lemma ParseWithoutDataRows(sheets: seq<string>, raw: seq<seq<Cell>>, before: nat)
    ensures raw == [] ==> HeaderRow(raw) == [] && ParseMessages(sheets, raw, before) == [Sheets(sheets), Done(before, [])]
    ensures |raw| == 1 ==> ParseMessages(sheets, raw, before) == [Sheets(sheets), Done(before, HeaderRow(raw))]
  {
    if |raw| <= 1 {
      assert DataRows(raw) == [];
    }
  }

  // ---------------------------------------------------------------------
  // Worker-side filtering
  // ---------------------------------------------------------------------

  /** `row[c] && row[c].toLowerCase().indexOf(q) !== -1`: an empty cell never matches. */
  predicate CellHit(cell: string, q: string) {
    cell != "" && Contains(Lower(cell), q)
  }

  /** `Array.isArray(cols) && cols.length ? cols : null`; `None` stands for a
      `cols` that is not an array. */
  function TargetCols(cols: Option<seq<int>>): Option<seq<int>> {
    if cols.Some? && |cols.value| > 0 then cols else None
  }

  /** Whether the scan sets `matched` for `row`: some targeted cell (all cells
      when there is no target list) is a hit. A target index outside the row
      reads `undefined` and never hits. */
  predicate RowHit(row: Row, q: string, target: Option<seq<int>>) {
    match target
    case None => exists c | 0 <= c < |row| :: CellHit(row[c], q)
    case Some(cs) => exists k | 0 <= k < |cs| :: 0 <= cs[k] < |row| && CellHit(row[cs[k]], q)
  }

  /** The indices of the rows of `rows` that hit, in increasing order. */
  function Matched(rows: seq<Row>, q: string, target: Option<seq<int>>): (ix: seq<nat>)
    ensures |ix| <= |rows|
    decreases |rows|
  {
    if rows == [] then []
    else
      Matched(rows[..|rows| - 1], q, target)
      + (if RowHit(rows[|rows| - 1], q, target) then [|rows| - 1] else [])
  }

  /** `maxResults && ...`: only a present, non-zero cap takes effect. */
  predicate CapActive(maxResults: Option<int>) {
    maxResults.Some? && maxResults.value != 0
  }

  /** With a cap `m` in force, the number of rows scanned when scanning
      resumes at row `k`: the scan stops right after the first row whose
      processing brings the match count to `m` or more. */
  function ScanFrom(rows: seq<Row>, q: string, target: Option<seq<int>>, m: int, k: nat): (e: nat)
    requires k <= |rows|
    ensures k <= e <= |rows|
    ensures e < |rows| ==> k < e && |Matched(rows[..e], q, target)| >= m
    decreases |rows| - k
  {
    if k == |rows| then k
    else if |Matched(rows[..k + 1], q, target)| >= m then k + 1
    else ScanFrom(rows, q, target, m, k + 1)
  }

  /** How many rows the scan looks at: all of them without a cap; with a cap
      `m`, it stops before the end only once the rows scanned hold at least
      `m` matches. */
  function ScanEnd(rows: seq<Row>, q: string, target: Option<seq<int>>, maxResults: Option<int>): (e: nat)
    ensures e <= |rows|
    ensures !CapActive(maxResults) ==> e == |rows|
    ensures CapActive(maxResults) && e < |rows| ==> e > 0 && |Matched(rows[..e], q, target)| >= maxResults.value
  {
    if CapActive(maxResults) then ScanFrom(rows, q, target, maxResults.value, 0) else |rows|
  }

  /** The `filterBatch` message posted after a row, given the matches so far:
      the last ChunkSize of them, whenever their number is a positive multiple of ChunkSize. */
  function ChunkAfter(ix: seq<nat>): (r: seq<Message>)
    ensures forall c :: c in r ==> c.FilterBatch? && |c.indicesChunk| == ChunkSize
  {
    if |ix| > 0 && |ix| % ChunkSize == 0 then [FilterBatch(ix[|ix| - ChunkSize..])] else []
  }

  /** The `filterBatch` messages posted while scanning the first `k` rows. */
  function Chunks(rows: seq<Row>, q: string, target: Option<seq<int>>, k: nat): (cs: seq<Message>)
    requires k <= |rows|
    ensures forall c :: c in cs ==> c.FilterBatch? && |c.indicesChunk| == ChunkSize
    decreases k
  {
    if k == 0 then [] else Chunks(rows, q, target, k - 1) + ChunkAfter(Matched(rows[..k], q, target))
  }

  function Range(n: nat): seq<nat> {
    seq(n, i requires 0 <= i < n => i)
  }

  /** The index list of the final `filterDone` message: every row for a
      falsy query, otherwise rows that hit. */
  function FilterResult(rows: seq<Row>, query: Cell, cols: Option<seq<int>>, maxResults: Option<int>): (ix: seq<nat>)
    ensures forall k :: 0 <= k < |ix| ==> ix[k] < |rows|
    ensures !query.Value? ==> |ix| == |rows|
    ensures query.Value? ==> forall k :: 0 <= k < |ix| ==> RowHit(rows[ix[k]], Lower(query.shown), TargetCols(cols))
  {
    match query
    case Value(s) =>
      var q := Lower(s);
      var target := TargetCols(cols);
      var e := ScanEnd(rows, q, target, maxResults);
      var ix := Matched(rows[..e], q, target);
      MatchedExactly(rows[..e], q, target);
      assert forall k :: 0 <= k < |ix| ==> ix[k] in ix && rows[..e][ix[k]] == rows[ix[k]];
      ix
    case _ => Range(|rows|)
  }

  /** Everything the worker posts for one `filter` request. */
  function FilterMessages(rows: seq<Row>, query: Cell, cols: Option<seq<int>>, maxResults: Option<int>): (out: seq<Message>)
    ensures |out| >= 1 && out[|out| - 1] == FilterDone(FilterResult(rows, query, cols, maxResults))
    ensures forall k :: 0 <= k < |out| - 1 ==> out[k].FilterBatch? && |out[k].indicesChunk| == ChunkSize
  {
    match query
    case Value(s) =>
      var q := Lower(s);
      var target := TargetCols(cols);
      Chunks(rows, q, target, ScanEnd(rows, q, target, maxResults))
        + [FilterDone(FilterResult(rows, query, cols, maxResults))]
    case _ => [FilterDone(Range(|rows|))]
  }

  // ---------------------------------------------------------------------
  // Properties of worker-side filtering
  // ---------------------------------------------------------------------

  lemma MatchedStep(rows: seq<Row>, q: string, target: Option<seq<int>>, k: nat)
    requires k < |rows|
    ensures Matched(rows[..k + 1], q, target)
         == Matched(rows[..k], q, target) + (if RowHit(rows[k], q, target) then [k] else [])
  {
    assert rows[..k + 1][..k] == rows[..k];
  }

  /** The matches are strictly increasing row indices, and a row is among
      them exactly when it hits. */
  lemma {:induction false} MatchedExactly(rows: seq<Row>, q: string, target: Option<seq<int>>)
    ensures StrictlyIncreasing(Matched(rows, q, target))
    ensures forall k :: 0 <= k < |Matched(rows, q, target)| ==> Matched(rows, q, target)[k] < |rows|
    ensures forall i :: 0 <= i < |rows| ==> (i in Matched(rows, q, target) <==> RowHit(rows[i], q, target))
    decreases |rows|
  {
    if rows != [] {
      var init := rows[..|rows| - 1];
      MatchedExactly(init, q, target);
      forall i | 0 <= i < |init| ensures init[i] == rows[i] { }
    }
  }

  /** Scanning fewer rows finds a prefix of the matches found by scanning more. */
  lemma {:induction false} MatchedPrefix(rows: seq<Row>, q: string, target: Option<seq<int>>, j: nat, k: nat)
    requires j <= k <= |rows|
    ensures |Matched(rows[..j], q, target)| <= |Matched(rows[..k], q, target)|
    ensures Matched(rows[..k], q, target)[..|Matched(rows[..j], q, target)|] == Matched(rows[..j], q, target)
    decreases k - j
  {
    if j < k {
      MatchedPrefix(rows, q, target, j, k - 1);
      MatchedStep(rows, q, target, k - 1);
    }
  }

  /** With a positive cap `m`, scanning stops as soon as `m` matches are
      found: what it found is the first min(m, all) of all matches. */
  lemma {:induction false} ScanFromFindsPrefix(rows: seq<Row>, q: string, target: Option<seq<int>>, m: int, k: nat)
    requires k <= |rows| && |Matched(rows[..k], q, target)| < m
    ensures var all := Matched(rows, q, target);
      Matched(rows[..ScanFrom(rows, q, target, m, k)], q, target) == all[..Min(m, |all|)]
    decreases |rows| - k
  {
    var all := Matched(rows, q, target);
    assert rows[..|rows|] == rows;
    if k == |rows| {
      assert all[..|all|] == all;
    } else {
      MatchedStep(rows, q, target, k);
      var next := Matched(rows[..k + 1], q, target);
      if |next| >= m {
        assert ScanFrom(rows, q, target, m, k) == k + 1;
        assert next == all[..Min(m, |all|)] by {
          MatchedPrefix(rows, q, target, k + 1, |rows|);
          assert |next| == m <= |all|;
        }
      } else {
        assert ScanFrom(rows, q, target, m, k) == ScanFrom(rows, q, target, m, k + 1);
        ScanFromFindsPrefix(rows, q, target, m, k + 1);
      }
    }
  }

  /** The scan stops at the first row that brings the count to `m`: every
      row before the one it ends on leaves fewer than `m` matches, as the
      `break` right after that row does. */
  lemma {:induction false} ScanFromFirst(rows: seq<Row>, q: string, target: Option<seq<int>>, m: int, k: nat)
    requires k <= |rows|
    ensures forall j :: k < j < ScanFrom(rows, q, target, m, k) ==> |Matched(rows[..j], q, target)| < m
    decreases |rows| - k
  {
    if k < |rows| && |Matched(rows[..k + 1], q, target)| < m {
      ScanFromFirst(rows, q, target, m, k + 1);
    }
  }

  /** Under an active cap, no row before the one the scan ends on brings the
      number of matches to `maxResults`. */
  lemma ScanEndFirst(rows: seq<Row>, q: string, target: Option<seq<int>>, maxResults: Option<int>)
    ensures CapActive(maxResults) ==>
      forall j :: 0 < j < ScanEnd(rows, q, target, maxResults) ==> |Matched(rows[..j], q, target)| < maxResults.value
  {
    if CapActive(maxResults) {
      ScanFromFirst(rows, q, target, maxResults.value, 0);
    }
  }

  /** A falsy query lists every row, in order, whatever the cap. */
  lemma FilterFalsyQuery(rows: seq<Row>, query: Cell, cols: Option<seq<int>>, maxResults: Option<int>)
    requires !query.Value?
    ensures FilterMessages(rows, query, cols, maxResults) == [FilterDone(FilterResult(rows, query, cols, maxResults))]
    ensures |FilterResult(rows, query, cols, maxResults)| == |rows|
    ensures forall i :: 0 <= i < |rows| ==> FilterResult(rows, query, cols, maxResults)[i] == i
  {
  }

  /** With a query, the result lists strictly increasing row indices, each of
      a row with a non-empty targeted cell containing the lower-cased query;
      without an active cap it lists every such row. */
  lemma FilterSound(rows: seq<Row>, s: string, cols: Option<seq<int>>, maxResults: Option<int>)
    ensures var ix := FilterResult(rows, Value(s), cols, maxResults);
      && StrictlyIncreasing(ix)
      && (forall k :: 0 <= k < |ix| ==> ix[k] < |rows| && RowHit(rows[ix[k]], Lower(s), TargetCols(cols)))
    ensures !CapActive(maxResults) ==>
      forall i :: 0 <= i < |rows| ==>
        (i in FilterResult(rows, Value(s), cols, maxResults) <==> RowHit(rows[i], Lower(s), TargetCols(cols)))
  {
    var q, target := Lower(s), TargetCols(cols);
    var e := ScanEnd(rows, q, target, maxResults);
    var ix := Matched(rows[..e], q, target);
    MatchedExactly(rows[..e], q, target);
    forall k | 0 <= k < |ix| ensures ix[k] < |rows| && RowHit(rows[ix[k]], q, target) {
      assert ix[k] in ix;
      assert rows[..e][ix[k]] == rows[ix[k]];
    }
    if !CapActive(maxResults) {
      assert rows[..e] == rows;
    }
  }

  /** A positive cap `m`: at most `m` indices, and they are a prefix of the
      uncapped result. */
  lemma FilterCapped(rows: seq<Row>, s: string, cols: Option<seq<int>>, m: int)
    requires m > 0
    ensures var all := FilterResult(rows, Value(s), cols, None);
      var ix := FilterResult(rows, Value(s), cols, Some(m));
      |ix| <= m && ix == all[..Min(m, |all|)]
  {
    var q, target := Lower(s), TargetCols(cols);
    assert rows[..|rows|] == rows;
    assert rows[..0] == [];
    ScanFromFindsPrefix(rows, q, target, m, 0);
  }

  /** A negative cap is truthy and never below the count, so the scan stops
      after the first row. */
  lemma FilterNegativeCap(rows: seq<Row>, s: string, cols: Option<seq<int>>, m: int)
    requires m < 0
    ensures FilterResult(rows, Value(s), cols, Some(m))
         == if rows != [] && RowHit(rows[0], Lower(s), TargetCols(cols)) then [0] else []
  {
    if rows != [] {
      MatchedStep(rows, Lower(s), TargetCols(cols), 0);
      assert rows[..0] == [];
    }
  }

  /** ChunkAt(ix, n) is the n-th run of ChunkSize consecutive matches. */
  function ChunkAt(ix: seq<nat>, n: nat): seq<nat> {
    if (n + 1) * ChunkSize <= |ix| then ix[n * ChunkSize..(n + 1) * ChunkSize] else []
  }

  ghost predicate IsChunkOf(chunk: seq<nat>, ix: seq<nat>) {
    exists n: nat :: (n + 1) * ChunkSize <= |ix| && chunk == ChunkAt(ix, n)
  }

  /** Each `filterBatch` posted while scanning the first `k` rows is one of the
      consecutive runs of ChunkSize matches of a longer scan: chunks are
      segments of the final index list. */
  lemma {:induction false} ChunksAreSegments(rows: seq<Row>, q: string, target: Option<seq<int>>, k: nat, e: nat)
    requires k <= e <= |rows|
    ensures forall p :: 0 <= p < |Chunks(rows, q, target, k)| ==>
      Chunks(rows, q, target, k)[p].FilterBatch?
      && |Chunks(rows, q, target, k)[p].indicesChunk| == ChunkSize
      && IsChunkOf(Chunks(rows, q, target, k)[p].indicesChunk, Matched(rows[..e], q, target))
    decreases k
  {
    if k > 0 {
      ChunksAreSegments(rows, q, target, k - 1, e);
      var prev := Chunks(rows, q, target, k - 1);
      var ix := Matched(rows[..k], q, target);
      var fin := Matched(rows[..e], q, target);
      assert Chunks(rows, q, target, k) == prev + ChunkAfter(ix);
      if |ix| > 0 && |ix| % ChunkSize == 0 {
        MatchedPrefix(rows, q, target, k, e);
        LastChunkIsChunkOf(ix, fin);
        assert ChunkAfter(ix) == [FilterBatch(ix[|ix| - ChunkSize..])];
      } else {
        assert ChunkAfter(ix) == [];
      }
    }
  }

  /** What the row at `k` posts, stated against the final index list `fin`
      of a scan of `e > k` rows: when the matches found so far number a
      positive multiple `c` of ChunkSize, the chunk of the last ChunkSize of
      them, which is chunk `c / ChunkSize - 1` of `fin`; otherwise nothing. */
  lemma ChunksStep(rows: seq<Row>, q: string, target: Option<seq<int>>, k: nat, e: nat)
    requires k < e <= |rows|
    ensures var c := |Matched(rows[..k + 1], q, target)|;
      Chunks(rows, q, target, k + 1)
      == Chunks(rows, q, target, k)
         + (if c > 0 && c % ChunkSize == 0
            then [FilterBatch(ChunkAt(Matched(rows[..e], q, target), c / ChunkSize - 1))]
            else [])
  {
    ChunksUnfold(rows, q, target, k);
    MatchedPrefix(rows, q, target, k + 1, e);
    ChunkAfterIn(Matched(rows[..k + 1], q, target), Matched(rows[..e], q, target));
  }

  /** One more row posts what `ChunkAfter` gives for the matches so far. */
  lemma ChunksUnfold(rows: seq<Row>, q: string, target: Option<seq<int>>, k: nat)
    requires k < |rows|
    ensures Chunks(rows, q, target, k + 1) == Chunks(rows, q, target, k) + ChunkAfter(Matched(rows[..k + 1], q, target))
  {
  }

  /** The chunk posted for the matches `ix` found so far, as a chunk of any
      list `fin` that `ix` is a prefix of. */
  lemma ChunkAfterIn(ix: seq<nat>, fin: seq<nat>)
    requires |ix| <= |fin| && fin[..|ix|] == ix
    ensures ChunkAfter(ix)
         == if |ix| > 0 && |ix| % ChunkSize == 0 then [FilterBatch(ChunkAt(fin, |ix| / ChunkSize - 1))] else []
  {
    if |ix| > 0 && |ix| % ChunkSize == 0 {
      LastChunkIsChunkOf(ix, fin);
    }
  }

  /** The last ChunkSize entries of a prefix of `fin` whose length is a
      positive multiple of ChunkSize are a chunk of `fin`. */
  lemma LastChunkIsChunkOf(ix: seq<nat>, fin: seq<nat>)
    requires |ix| <= |fin| && fin[..|ix|] == ix && |ix| > 0 && |ix| % ChunkSize == 0
    ensures ChunkSize <= |ix| && IsChunkOf(ix[|ix| - ChunkSize..], fin)
    ensures ix[|ix| - ChunkSize..] == ChunkAt(fin, |ix| / ChunkSize - 1)
  {
    var n: nat := |ix| / ChunkSize - 1;
    assert (n + 1) * ChunkSize == |ix|;
    assert ix[|ix| - ChunkSize..] == fin[n * ChunkSize..(n + 1) * ChunkSize];
    assert ChunkAt(fin, n) == ix[|ix| - ChunkSize..];
  }

  /** The same chunk is posted again after a row that does not match while
      the count stays a positive multiple of ChunkSize. */
  lemma ChunkRepeats(rows: seq<Row>, q: string, target: Option<seq<int>>, k: nat)
    requires 0 < k < |rows|
    requires !RowHit(rows[k], q, target)
    requires |Matched(rows[..k], q, target)| > 0 && |Matched(rows[..k], q, target)| % ChunkSize == 0
    ensures |Chunks(rows, q, target, k)| > 0
    ensures Chunks(rows, q, target, k + 1)
         == Chunks(rows, q, target, k) + [Chunks(rows, q, target, k)[|Chunks(rows, q, target, k)| - 1]]
  {
    MatchedStep(rows, q, target, k);
    var ix := Matched(rows[..k], q, target);
    assert Chunks(rows, q, target, k) == Chunks(rows, q, target, k - 1) + ChunkAfter(ix);
    assert ChunkAfter(ix) == [FilterBatch(ix[|ix| - ChunkSize..])];
    assert Matched(rows[..k + 1], q, target) == ix;
    assert Chunks(rows, q, target, k + 1) == Chunks(rows, q, target, k) + ChunkAfter(ix);
  }
}
