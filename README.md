# Excel filter viewer: ingestion worker and main-thread table, in Dafny

The application loads a spreadsheet in the browser. A web worker (`worker.js`) parses it and sends the data rows to the main thread (`app.js`) in batches of 1000. The main thread keeps the table and filters it:
- column filters: case-insensitive substring, one per column;
- a global query: some cell contains it;
- it marks the matching text with `<mark>` tags;
- it exports the filtered rows.

The worker can also filter its own copy of the rows. It posts match indices in chunks of 2000, and an optional cap stops the scan early.

This project models both scripts. The spreadsheet codec and the browser are left out. What is modelled:

- **Ingest** holds the worker's computations as functions, with their properties:
  - the header row (every falsy header becomes `''`);
  - data rows normalised to the header width (only a missing cell becomes `''`);
  - the batches and their `start`/`total` fields;
  - the messages of a parse;
  - the worker-side scan: targeted columns, the `maxResults` cap, `filterBatch` chunks and `filterDone`.
- **SheetWorker** holds `class Worker`, whose fields are `parsedRows` and `headers` plus an `outbox` of posted messages.
  - `Parse` and `Filter` are the two branches of `onmessage`.
  - The batching loop, the per-row `j` loop (over an array) and the scan loop with its `break`s are written as loops.
  - Each method is proved to post exactly the messages Ingest specifies.
- **FilterEngine** holds `applyAllFilters` as a function `Where`:
  - it is built from a filter `Select` over a small language of row tests;
  - the column-filter map is a sequence of (column, term) pairs in insertion order, edited by `onColumnFilterChange`;
  - it computes the list of highlight terms.
- **Highlighter** holds `highlight`:
  - each term's pass wraps every left-to-right, non-overlapping, case-insensitive occurrence and keeps the text's casing;
  - the passes run one after another over the growing markup.
- **TabularStore** holds the main-thread state as a value:
  - how `msgHandler` changes it;
  - what a whole parse does to it;
  - the export data and its re-import.
- **Viewer** holds `class App`. Its fields are app.js's module state. Its methods are `msgHandler`, `applyAllFilters`, `onColumnFilterChange`, the global search handler, the cell texts of `renderRows` and the export button.
- **Text** and **Common** hold shared vocabulary:
  - ASCII lower-casing;
  - `includes`, `trim` and `indexOf`;
  - an option type and slice lemmas.

The code has several quirks, and the model keeps each of them as written:
- The worker never puts the header row into a batch: batches start at `raw[1]`. The main thread still takes `batch[0]` of the first batch as its header row and drops it from `rows`, and it ignores the `headers` of the `done` message. `TabularStore.ParseThenReceive` states the result:
  - the main thread's header row is the first data row;
  - its table lacks that row and holds `|raw| - 2` rows.
- A sheet with fewer than two rows posts no batch, so the main thread keeps the previous file's table.
- The column filters survive the loading of a new file.
- `columnFilters` is a plain object, so `columnFilters["__proto__"] = val` sets its prototype slot, which ignores a string. A filter box on a column named `__proto__` therefore never filters. `delete` on that key removes nothing either.
- The worker's `parsedRows` is only ever appended to: nothing in `worker.js` resets it between two parses on the same worker.

Three properties one would expect of such a viewer, and how far the code meets them:
- The batches, concatenated in order, rebuild the whole sequence of data rows. For the worker's own copy this holds (`Ingest.BatchesFlatten`, `SheetWorker.Worker.PostBatches`). The main thread's table loses the first data row (above).
- Loading file B after file A leaves only B's data. This fails when B has fewer than two rows.
- The table never holds rows whose length disagrees with the header length. This holds after a parse: every row is as long as the first data row, which serves as the header row (`TabularStore.ParseThenReceive`).

## Model

| member | source | states |
|---|---|---|
| Text.Lower | app.js:77 | lower-casing keeps the length of the string |
| Text.Trim | app.js:77 | the trimmed text is `s[i..j]` for some i <= j, with only white space before i and from j on. When it is non-empty it neither starts nor ends with white space. So exactly the leading and trailing white space is removed |
| Text.TrimBlank | app.js:77-79 | trimming gives `''` exactly when the input is all white space, so such an input deletes the filter. Otherwise the trimmed text occurs in the input |
| Text.IndexOf | app.js:100 | -1 exactly when the header is absent. Otherwise the position holds the header and no earlier position does |
| Ingest.HeaderVersusData | worker.js:21-27 | a header cell is `''` exactly for falsy or empty values. A data cell is `''` only when missing or empty. So a `0` header is `''` while a `0` data cell is `"0"` |
| Ingest.HeaderText | worker.js:21 | a header cell becomes `''` exactly when it is falsy or shows as empty. Any other value keeps its text |
| Ingest.DataText | worker.js:27 | a data cell becomes `''` exactly when it is missing or shows as empty. Every present cell keeps its text, falsy ones included |
| Ingest.HeaderRow | worker.js:21 | an empty sheet has no headers. Otherwise there is one header text per cell of the first row, in order |
| Ingest.NormRow | worker.js:26-27 | a normalised row has exactly the header's length. Its cells are the data texts of the source row where it has them, and `''` past its end |
| Ingest.NormRows | worker.js:25-29 | normalising a batch keeps one row per source row |
| Ingest.NormRowsAt | worker.js:25-29 | the k-th normalised row is the k-th source row, normalised |
| Ingest.Batches | worker.js:22-31 | there is no batch exactly when there are no data rows, and there are never more batches than rows |
| Ingest.BatchesFlatten | worker.js:22-31 | the batches, concatenated in order, are exactly the normalised data rows |
| Ingest.BatchAt | worker.js:22-31 | the k-th batch is the rows from k*1000 to (k+1)*1000, or to the end for the last one. Its `start` is k*1000 and it carries the common `total` |
| Ingest.BatchesShape | worker.js:19-31 | every batch has 1 to 1000 rows, and all but the last have exactly 1000. The k-th starts at k*1000 and all carry the same `total` |
| Ingest.BatchesPrefix | worker.js:22-31 | a batch's `start` equals the number of rows posted in earlier batches, and those rows are the first rows of the data |
| Ingest.BatchRowsMatchHeaders | worker.js:21-31 | every row of every posted batch has exactly as many cells as the header row |
| Ingest.ParseMessages | worker.js:15-33 | a parse posts `sheets` first and `done` last. `done` carries the old row count plus the number of data rows, and the header row. Nothing is posted in between exactly when the sheet has fewer than two rows |
| Ingest.ParseMessagesShape | worker.js:15-33 | the rows carried by the messages of a parse are exactly the normalised data rows, in order |
| Ingest.ParseWithoutDataRows | worker.js:21-33 | an empty sheet gives no headers and no batch, and a one-row sheet gives no batch. Both post `done` with the unchanged row count |
| Ingest.Matched | worker.js:50-62 | the scan finds no more matches than rows. `RowHit` is the test that the two inner loops compute |
| Ingest.MatchedExactly | worker.js:50-62 | the match indices are strictly increasing and in range. An index is listed exactly when its row hits |
| Ingest.MatchedPrefix | worker.js:50-62 | the matches among the first j rows are a prefix of the matches among the first k rows |
| Ingest.ScanFrom | worker.js:66 | resuming at row k, the scan covers between k rows and all rows. It stops before the end only after a row that brings the match count to m or more; `ScanFromFirst` says that row is the first such row |
| Ingest.ScanFromFirst | worker.js:66 | every row after k and before the one the scan ends on leaves fewer than m matches, so the scan stops at the first row that brings the count to m |
| Ingest.ScanEnd | worker.js:66 | without an active cap every row is scanned. With one, the scan stops before the end only after at least one row, once at least `maxResults` matches are found; `ScanEndFirst` says it stops at the first row that reaches the cap |
| Ingest.ScanEndFirst | worker.js:66 | under an active cap, no row before the one the scan ends on brings the number of matches to `maxResults` |
| Ingest.FilterResult | worker.js:40-68 | every index names a row. A falsy query lists as many indices as there are rows. With a query, every listed row hits |
| Ingest.FilterMessages | worker.js:40-68 | a filter request ends with `filterDone` carrying the result, and every message before it is a `filterBatch` of 2000 indices |
| Ingest.FilterFalsyQuery | worker.js:40-44 | a falsy query posts only `filterDone` with every index 0..n-1 in order, whatever the cap |
| Ingest.FilterSound | worker.js:46-68 | the `filterDone` indices are strictly increasing and below the row count. Each names a row with a non-empty targeted cell containing the lower-cased query, and without a cap every such row is listed |
| Ingest.FilterCapped | worker.js:63-68 | with a positive cap m, at most m indices are returned, and they are the first ones of the uncapped result |
| Ingest.FilterNegativeCap | worker.js:66 | a negative cap stops the scan after the first row |
| Ingest.ChunkAfter | worker.js:63-65 | whatever is posted after a row is a `filterBatch` of exactly 2000 indices; `ChunkAfterIn` and `ChunksStep` say which indices |
| Ingest.ChunkAfterIn | worker.js:63-65 | for matches `ix` that are a prefix of a longer list `fin`, a chunk is posted exactly when `|ix|` is a positive multiple of 2000, and it is the last 2000 of `ix`, which is chunk `|ix|/2000 - 1` of `fin` |
| Ingest.Chunks | worker.js:63-65 | every message posted during the scan is a `filterBatch` of exactly 2000 indices; `ChunksStep` fixes the messages row by row |
| Ingest.ChunksStep | worker.js:63-65 | the row at k posts, after what the earlier rows posted, the chunk of the last 2000 matches found so far exactly when their number c is a positive multiple of 2000. That chunk is chunk c/2000 - 1 of the final index list; otherwise the row posts nothing |
| Ingest.ChunksAreSegments | worker.js:63-65 | every `filterBatch` holds 2000 indices, and each one is a consecutive run of 2000 indices of the final result |
| Ingest.ChunkRepeats | worker.js:63-65 | after a non-matching row, while the count is a positive multiple of 2000, the same chunk is posted again |
| SheetWorker.NormalizeRow | worker.js:26-28 | the array filled by the `j` loop is the normalised row |
| SheetWorker.NormalizeBatch | worker.js:25-29 | the mapped batch is the normalised batch |
| SheetWorker.ScanRow | worker.js:52-61 | `matched` is set exactly when some targeted cell, or any cell when there is no target list, is a non-empty hit |
| SheetWorker.Worker.constructor | worker.js:5-6 | the worker starts with no rows, no headers and nothing posted |
| SheetWorker.Worker.Parse | worker.js:10-36 | a workbook that cannot be read posts only `error`. A sheet that cannot be converted posts `sheets` then `error`. In both cases the state is unchanged. A decoded sheet sets `headers`, appends the normalised rows to `parsedRows` and posts exactly the parse messages |
| SheetWorker.Worker.PostBatches | worker.js:22-32 | after the loop, `parsedRows` has grown by exactly the normalised data rows, and exactly their batches were posted in order |
| SheetWorker.Worker.Filter | worker.js:37-69 | the `filter` command posts exactly the chunk messages and the `filterDone` specified for the current rows |
| SheetWorker.Worker.Scan | worker.js:49-67 | the returned indices are the matches among the rows scanned before the cap stops the scan. The chunks posted are those for exactly those rows |
| FilterEngine.Select | app.js:102 | a filter keeps no more rows than it is given, and every kept row is one of them and passes the test |
| FilterEngine.SelectSubsequence | app.js:102 | the kept rows are the rows at strictly increasing positions whose row passes. A position is kept exactly when its row passes |
| FilterEngine.ApplyColumnFilters | app.js:99-104 | the column filters keep no more rows than they are given. Each kept row is a table row that passes every filter whose column is a header |
| FilterEngine.Where | app.js:95-115 | the view has no more rows than the table. Each of its rows is a table row that passes every column filter and the global query |
| FilterEngine.SelectSelect | app.js:99-112 | filtering by one test and then another is filtering once by their conjunction |
| FilterEngine.ColumnFiltersSelect | app.js:99-104 | applying the column filters one after another keeps exactly the rows that pass all of them |
| FilterEngine.WhereIsSelect | app.js:95-115 | the filtered view is one filter of the table by the conjunction of all column filters and the global query |
| FilterEngine.WhereSubsequence | app.js:95-115 | the filtered view is an order-preserving subsequence of the table. A row is in it exactly when it passes every filter |
| FilterEngine.WhereColumnsHold | app.js:99-104 | every kept row contains each active term in its lower-cased cell at the first header equal to the filter's column |
| FilterEngine.WhereGlobalOnly | app.js:108-112 | with no column filter and a non-empty query, the kept rows are exactly the rows having some lower-cased cell that contains the query |
| FilterEngine.WhereUnknownColumns | app.js:100-101 | with no global query, filters whose columns are not headers leave the table unchanged. With no filter at all, the view is the table |
| FilterEngine.WhereUnknownColumnNoOp | app.js:100-101 | adding a filter on a column that is not a header changes nothing |
| FilterEngine.WhereIdempotent | app.js:95-115 | filtering the filtered view again with the same filters changes nothing |
| FilterEngine.WhereOrderIrrelevant | app.js:99-104 | the order of the column filters does not affect the view |
| FilterEngine.Put | app.js:78 | assigning to `__proto__` leaves the map unchanged. Any other column maps to the new term afterwards: a present column keeps its position and a new one is appended |
| FilterEngine.PutNew | app.js:78 | setting an absent column appends it with its term, except that `__proto__` stays absent. Keys stay unique and the other columns keep their terms |
| FilterEngine.PutExisting | app.js:78 | setting a present column replaces its term in place, except that `__proto__` keeps its old term. The other columns keep their terms |
| FilterEngine.Remove | app.js:79 | deleting a column removes exactly that column's pairs and keeps every other pair; `RemoveAppend` and `RemoveAt` fix their order |
| FilterEngine.RemoveAppend | app.js:79 | deleting from two parts of the map is deleting from each part, with the parts kept in order |
| FilterEngine.RemoveAt | app.js:79 | with unique keys, deleting a column takes out its one entry and keeps every other entry in insertion order; deleting an absent column changes nothing |
| FilterEngine.RemoveDropsKey | app.js:79 | after deleting a column it is no longer a key |
| FilterEngine.RemoveKeepsOther | app.js:79 | deleting a column leaves the lookup of every other column unchanged |
| FilterEngine.RemoveLookup | app.js:79 | deleting a column removes its key. Keys stay unique and the other columns keep their terms |
| FilterEngine.ColumnFilterChange | app.js:76-79 | an input that is blank after trimming removes the column. Otherwise the column maps to the trimmed, lower-cased input. The exception is `__proto__`, whose edit leaves the map unchanged |
| FilterEngine.ColumnFilterChangeSpec | app.js:75-79 | after an edit, the column is present exactly when its trimmed, lower-cased input is non-empty, and then it maps to that input. The exception is `__proto__`, which keeps what it had. Every other column is unchanged |
| FilterEngine.ColumnFilterChangeNoProto | app.js:78 | no edit ever creates a `__proto__` entry |
| FilterEngine.ColumnFilterChangeNonEmpty | app.js:77-79 | edits never store an empty term |
| FilterEngine.HighlightTerms | app.js:118-119 | one term per column filter, in map order, followed by the global query when it is non-empty; so a term is highlighted exactly when it is a filter term or the non-empty query |
| FilterEngine.ScenarioColumnFilter | app.js:95-104 | headers Name and Age with rows Ann 30, Bo 25 and Anna 22: the column filter Name: "an" keeps Ann and Anna |
| FilterEngine.ScenarioGlobalQuery | app.js:108-112 | with the same table, the global query "25" keeps only Bo |
| Highlighter.Highlight | app.js:126-136 | the loop over the terms computes the term-by-term marking |
| Highlighter.MarkTerm | app.js:131-132 | one term's pass never shortens the text, and it lengthens it by a multiple of 13 characters, the length of one `<mark></mark>` pair; `MarkTermFirstMatch` and `MarkTermNoMatch` fix the output itself |
| Highlighter.MarkAll | app.js:127-134 | all the passes together never shorten the text, and they lengthen it by a multiple of 13 characters, the length of one `<mark></mark>` pair |
| Highlighter.MarkAllSingle | app.js:129-132 | a list of one non-empty term makes exactly that term's pass |
| Highlighter.MarkTermGrows | app.js:131-132 | when the term occurs in the text, its pass makes the text longer |
| Highlighter.MarkTermFirstMatch | app.js:131-132 | at the first case-insensitive occurrence of the term, the text before it is kept, the occurrence is wrapped in `<mark>` and `</mark>` with its own casing, and the pass resumes right after it |
| Highlighter.MarkTermSplit | app.js:131-132 | for text cut into a part without a match start, an occurrence and the rest, the pass keeps the first part, wraps the occurrence and marks the rest |
| Highlighter.MarkTermNoMatch | app.js:131-132 | text in which the term does not occur, ignoring case, is left as it is |
| Highlighter.MarkTermUnchanged | app.js:131-132 | one term's pass leaves the text unchanged exactly when the term does not occur in it, ignoring case |
| Highlighter.MarkedAt | app.js:131-132 | where the term occurs, the marked text holds an opening `<mark>` |
| Highlighter.MarkTermRoundTrip | app.js:131-132 | removing the `<mark>`/`</mark>` markers from one term's marking gives back the text |
| Highlighter.MarkAllAppend | app.js:129-134 | marking with a list of terms is marking with its first part and then, on the result, with the rest |
| Highlighter.MarkAllSkipsEmpty | app.js:127-130 | empty terms are skipped, and an empty term list leaves the text unchanged |
| Highlighter.NestedMarkup | app.js:129-134 | once one term matched, a later term "mark" matches inside the inserted markup and changes the text |
| Highlighter.AnnaExample | app.js:131-132 | "Anna" with "an" becomes `<mark>An</mark>na` |
| TabularStore.Receive | app.js:32-45 | the batch at start 0 splits into a header row and the table. A later batch is appended to the table. After a batch the filtered view is the table, and any other message changes nothing |
| TabularStore.ReceiveAll | app.js:28-51 | handling messages never touches the column filters |
| TabularStore.ReceiveAllAppend | app.js:28-51 | handling `a` and then `b` is handling `a + b` |
| TabularStore.ReceiveLaterBatches | app.js:38-40 | batches after the first append their rows to the table in order and leave the header row alone |
| TabularStore.ReceiveFirstBatches | app.js:34-40 | the batches of a parse make its first row the header row and its other rows the table, whatever was held before |
| TabularStore.WorkerMessagesReceivable | app.js:34-35 | every message of every parse can be handled: a first batch is never empty |
| TabularStore.ParseThenReceive | app.js:28-51 | after a parse with two raw rows or more, the header row is the first normalised data row and the table is the remaining data rows (`|raw|-2` rows). The view is the table, every row is as long as the header row, and the filters are unchanged. With fewer rows nothing changes |
| TabularStore.ExportData | app.js:161-168 | no export data exactly when the view is empty. Otherwise the export data is the header row followed by the view in order |
| TabularStore.ExportReimport | app.js:168-169 | parsing the exported sheet again gives back the header row and the filtered rows |
| Viewer.App.constructor | app.js:9-12 | the page starts with an empty table, an empty view and no filters |
| Viewer.App.MsgHandler | app.js:28-51 | the fields change exactly as `Receive` says |
| Viewer.App.ApplyAllFilters | app.js:95-122 | after the loop over the filters and the global test, the view is `Where`, and the returned terms are the highlight terms |
| Viewer.App.OnColumnFilterChange | app.js:75-81 | the filter map is edited as `ColumnFilterChange` says. Keys stay unique, terms stay non-empty and no key is `__proto__`. The view is recomputed with the trimmed, lower-cased global query |
| Viewer.App.OnGlobalSearch | app.js:85-91 | the view is recomputed with the trimmed, lower-cased input, and the highlight terms are returned |
| Viewer.App.RenderCells | app.js:140-144 | every cell of the view is rendered as its marking by the highlight terms, row by row |
| Viewer.App.ExportClick | app.js:161-168 | the button gives no data exactly when the view is empty. Otherwise it gives the header row and then the view |

## Left out

- DOM and rendering are not modelled because they are UI:
  - `buildHead`;
  - the HTML strings and `innerHTML` of `renderRows` (only the cell texts are modelled);
  - the status line;
  - the progress bar, whose percentage is floating point.
- Concurrency is not modelled. This covers `FileReader`, creating and terminating workers, message transport and the 150 ms debounce of the global search. Messages are a sequence. Stale workers are covered only by the reset that a start-0 batch performs.
- The spreadsheet codec (`XLSX.read`, `sheet_to_json`, `aoa_to_sheet`, `writeFile`) and `importScripts` are foreign code. The decoded array-of-arrays, or the point where decoding threw, is an input (`Decoded`). The sheet choice `sheetName || sheetNames[0]` is part of that input.
- The Fuse.js index built by `buildFuse` is not modelled: its results are never used.
- `alert` and `console.log` are not modelled. The alert is the `None` export result.
- Highlighter.Highlight: each term is assumed to hold no regular-expression metacharacter (`Literal`) and is matched literally. Escaping is not modelled, because the source passes terms to `RegExp` unescaped.
- Highlighter.MarkTermRoundTrip: the round trip is proved for one term and for text without `<`. After several terms, later terms can match inside markup (`NestedMarkup`), and text that already holds `<mark>` loses it.
- Text.Lower: lower-casing is ASCII-only and keeps the length. Unicode `toLowerCase` is not modelled.
- TabularStore.Receive: requires a start-0 batch to hold a row. In the source an empty first batch would make `headers` undefined and make `buildHead` throw. The worker never posts such a batch (`WorkerMessagesReceivable`).
- FilterEngine.Where: `Object.entries` lists integer-like keys first, in numeric order. The model keeps plain insertion order. This does not change the view (`WhereOrderIrrelevant`), only the order of the highlight terms.
- SheetWorker.Worker.Filter: `cols` is either an array of integer indices or absent (`None`). Non-integer entries and a non-array `cols` value other than absent are not modelled. `maxResults` is an integer or absent.
- TabularStore.ExportReimport: it assumes the spreadsheet writer and reader give every string cell back unchanged, with `''` read back as a falsy cell.
