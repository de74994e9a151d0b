/**
  The main thread of app.js as an object: the module-level `headers`,
  `rows`, `filteredRows` and `columnFilters` are fields, and the handlers
  (`msgHandler`, `onColumnFilterChange`, the global search box,
  `applyAllFilters`, the export button) are methods that update them. Each
  method is specified by the value-level functions of TabularStore,
  FilterEngine and Highlighter.
*/
module Viewer {
  import opened Common
  import opened Text
  import opened Ingest
  import opened FilterEngine
  import opened TabularStore
  import opened Highlighter

  class App {
    var headers: Row
    var rows: seq<Row>
    var filteredRows: seq<Row>
    var columnFilters: ColumnFilters

    /** The fields as a TabularStore value. */
    function State(): Store
      reads this
    {
      Store(headers, rows, filteredRows, columnFilters)
    }

    /** The filter map has one entry per column, no empty term and no
        `__proto__` entry. */
    predicate Valid()
      reads this
    {
      UniqueKeys(columnFilters) && TermsNonEmpty(columnFilters) && ProtoKeyAbsent(columnFilters)
    }

    /** The page as loaded: everything empty. */
    constructor ()
      ensures State() == Store([], [], [], [])
      ensures Valid()
    {
      headers, rows, filteredRows, columnFilters := [], [], [], [];
    }

    /** `msgHandler(e)` for the message `msg`. */
    method MsgHandler(msg: Message)
      requires Receivable(msg)
      modifies this
      ensures State() == Receive(old(State()), msg)
      ensures Valid() == old(Valid())
    {
      if msg.Batch? {
        if msg.start == 0 {
          headers := msg.batch[0];
          rows := msg.batch[1..];
        } else {
          rows := rows + msg.batch;
        }
        filteredRows := rows;
      }
    }

    /** `applyAllFilters(globalQuery)`: the column filters one after another
        in map order, then the global query; returns the highlight terms
        handed to `renderRows`. */
    method ApplyAllFilters(globalQuery: string) returns (terms: seq<string>)
      modifies this`filteredRows
      ensures filteredRows == Where(rows, headers, columnFilters, globalQuery)
      ensures terms == HighlightTerms(columnFilters, globalQuery)
    {
      var result := rows;
      for k := 0 to |columnFilters|
        invariant result == ApplyColumnFilters(rows, headers, columnFilters[..k])
      {
        assert columnFilters[..k + 1][..k] == columnFilters[..k];
        var (col, val) := columnFilters[k];
        var idx := IndexOf(headers, col);
        if idx != -1 {
          result := Select(result, ColumnTest(idx, val));
        }
      }
      assert columnFilters[..|columnFilters|] == columnFilters;
      if globalQuery != "" {
        result := Select(result, GlobalTest(globalQuery));
      }
      filteredRows := result;
      terms := Values(columnFilters);
      if globalQuery != "" {
        terms := terms + [globalQuery];
      }
    }

    /** `onColumnFilterChange` for the filter box of column `col` now holding
        `input`, while the global search box holds `globalInput`. */
    method OnColumnFilterChange(col: string, input: string, globalInput: string) returns (terms: seq<string>)
      requires Valid()
      modifies this`columnFilters, this`filteredRows
      ensures Valid()
      ensures columnFilters == ColumnFilterChange(old(columnFilters), col, input)
      ensures filteredRows == Where(rows, headers, columnFilters, Lower(Trim(globalInput)))
      ensures terms == HighlightTerms(columnFilters, Lower(Trim(globalInput)))
    {
      ghost var next := ColumnFilterChange(columnFilters, col, input);
      assert UniqueKeys(next) && TermsNonEmpty(next) && ProtoKeyAbsent(next) by {
        ColumnFilterChangeSpec(columnFilters, col, input);
        ColumnFilterChangeNonEmpty(columnFilters, col, input);
        ColumnFilterChangeNoProto(columnFilters, col, input);
      }
      var val := Lower(Trim(input));
      if val != "" {
        columnFilters := Put(columnFilters, col, val);
      } else {
        columnFilters := Remove(columnFilters, col);
      }
      assert columnFilters == next;
      terms := ApplyAllFilters(Lower(Trim(globalInput)));
    }

    /** The global search box now holding `input`, once the debounce timer
        has fired. */
    method OnGlobalSearch(input: string) returns (terms: seq<string>)
      modifies this`filteredRows
      ensures filteredRows == Where(rows, headers, columnFilters, Lower(Trim(input)))
      ensures terms == HighlightTerms(columnFilters, Lower(Trim(input)))
    {
      terms := ApplyAllFilters(Lower(Trim(input)));
    }

    /** `highlight(c, terms)` for every cell of the filtered view, row by row:
        the cell texts `renderRows` puts in the table. */
    method RenderCells(terms: seq<string>) returns (cells: seq<seq<string>>)
      requires AllLiteral(terms)
      ensures |cells| == |filteredRows|
      ensures forall i :: 0 <= i < |cells| ==>
        |cells[i]| == |filteredRows[i]| &&
        forall j :: 0 <= j < |cells[i]| ==> cells[i][j] == MarkAll(filteredRows[i][j], terms)
    {
      cells := [];
      for i := 0 to |filteredRows|
        invariant |cells| == i
        invariant forall a :: 0 <= a < i ==>
          |cells[a]| == |filteredRows[a]| &&
          forall j :: 0 <= j < |cells[a]| ==> cells[a][j] == MarkAll(filteredRows[a][j], terms)
      {
        var r := filteredRows[i];
        var out: seq<string> := [];
        for j := 0 to |r|
          invariant |out| == j
          invariant forall b :: 0 <= b < j ==> out[b] == MarkAll(r[b], terms)
        {
          var h := Highlight(r[j], terms);
          out := out + [h];
        }
        cells := cells + [out];
      }
    }

    /** The export button: `None` stands for the "nothing to export" alert;
        otherwise the array-of-arrays handed to the spreadsheet writer. */
    method ExportClick() returns (data: Option<seq<Row>>)
      ensures data.None? <==> filteredRows == []
      ensures data.Some? ==> data.value == [headers] + filteredRows
      ensures data == ExportData(headers, filteredRows)
    {
      if |filteredRows| == 0 {
        return None;
      }
      data := Some([headers] + filteredRows);
    }
  }
}
