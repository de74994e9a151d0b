/**
  The main-thread filter of app.js (`applyAllFilters`): column filters are
  applied one after another, each keeping the rows whose cell under the
  filter's column contains the filter's term once lower-cased; then, when
  the global query is non-empty, only rows with some cell containing it are
  kept. Also the column-filter map (`columnFilters`) that feeds it, kept as
  a sequence of (column, term) pairs in insertion order.
*/
module FilterEngine {
  import opened Common
  import opened Text

  // ---------------------------------------------------------------------
  // The row tests of applyAllFilters
  // ---------------------------------------------------------------------

  /** `String(r[idx])`: a cell past the end of the row reads "undefined". */
  function CellString(r: Row, idx: nat): string {
    if idx < |r| then r[idx] else "undefined"
  }

  /** The column test: the lower-cased cell at `idx` contains `val`. */
  predicate KeepColumn(r: Row, idx: nat, val: string) {
    Contains(Lower(CellString(r, idx)), val)
  }

  /** The global test: some lower-cased cell of `r` contains `q`. */
  predicate KeepGlobal(r: Row, q: string) {
    exists c | 0 <= c < |r| :: Contains(Lower(r[c]), q)
  }

  /** A filter (column name, term) as applied: a column missing from the
      header row (`indexOf` gives -1) excludes nothing. */
  predicate PassesColumn(r: Row, headers: Row, f: (string, string)) {
    var idx := IndexOf(headers, f.0);
    idx == -1 || KeepColumn(r, idx, f.1)
  }

  predicate PassesColumns(r: Row, headers: Row, filters: seq<(string, string)>) {
    forall k :: 0 <= k < |filters| ==> PassesColumn(r, headers, filters[k])
  }

  /** An empty global query is falsy and tests nothing. */
  predicate PassesGlobal(r: Row, q: string) {
    q == "" || KeepGlobal(r, q)
  }

  /** The combined test a row must pass to stay in the filtered view. */
  predicate Keep(r: Row, headers: Row, filters: seq<(string, string)>, q: string) {
    PassesColumns(r, headers, filters) && PassesGlobal(r, q)
  }

  /** The tests rows are filtered by: one column filter, the global query,
      or everything at once. */
  datatype Test =
    | ColumnTest(idx: nat, val: string)
    | GlobalTest(q: string)
    | AllTests(headers: Row, filters: seq<(string, string)>, q: string)
    | NoTest

  predicate Passes(r: Row, t: Test) {
    match t
    case ColumnTest(idx, val) => KeepColumn(r, idx, val)
    case GlobalTest(q) => KeepGlobal(r, q)
    case AllTests(headers, filters, q) => Keep(r, headers, filters, q)
    case NoTest => true
  }

  // ---------------------------------------------------------------------
  // Keeping the rows that pass a test (`Array.prototype.filter`)
  // ---------------------------------------------------------------------

  /** `rows.filter(r => Passes(r, t))`. */
  function Select(rows: seq<Row>, t: Test): (r: seq<Row>)
    ensures |r| <= |rows|
    ensures forall x :: x in r ==> x in rows && Passes(x, t)
    decreases |rows|
  {
    if rows == [] then []
    else
      var last := rows[|rows| - 1];
      Select(rows[..|rows| - 1], t) + (if Passes(last, t) then [last] else [])
  }

  /** The positions in `rows` of the rows `Select` keeps. */
  function SelectIndices(rows: seq<Row>, t: Test): seq<nat>
    decreases |rows|
  {
    if rows == [] then []
    else
      SelectIndices(rows[..|rows| - 1], t) + (if Passes(rows[|rows| - 1], t) then [|rows| - 1] else [])
  }

  /** The kept positions are strictly increasing, and a position is among
      them exactly when its row passes. */
  lemma {:induction false} SelectIndicesExactly(rows: seq<Row>, t: Test)
    ensures StrictlyIncreasing(SelectIndices(rows, t))
    ensures forall k :: 0 <= k < |SelectIndices(rows, t)| ==> SelectIndices(rows, t)[k] < |rows|
    ensures forall i :: 0 <= i < |rows| ==> (i in SelectIndices(rows, t) <==> Passes(rows[i], t))
    decreases |rows|
  {
    if rows != [] {
      var init := rows[..|rows| - 1];
      SelectIndicesExactly(init, t);
      forall i | 0 <= i < |init| ensures init[i] == rows[i] { }
    }
  }

  /** The k-th kept row is the row at the k-th kept position. */
  lemma {:induction false} SelectAt(rows: seq<Row>, t: Test)
    ensures |SelectIndices(rows, t)| == |Select(rows, t)|
    ensures forall k :: 0 <= k < |Select(rows, t)| ==>
      SelectIndices(rows, t)[k] < |rows| && Select(rows, t)[k] == rows[SelectIndices(rows, t)[k]]
    decreases |rows|
  {
    if rows != [] {
      var init := rows[..|rows| - 1];
      SelectAt(init, t);
      var s, ix := Select(init, t), SelectIndices(init, t);
      forall k | 0 <= k < |s|
        ensures SelectIndices(rows, t)[k] == ix[k] < |rows| && Select(rows, t)[k] == s[k] == rows[ix[k]]
      {
        assert init[ix[k]] == rows[ix[k]];
      }
    }
  }

  /** `Select` keeps an order-preserving subsequence of `rows`: the rows at
      exactly the positions whose row passes. */
  lemma SelectSubsequence(rows: seq<Row>, t: Test)
    ensures var ix := SelectIndices(rows, t);
      && |ix| == |Select(rows, t)|
      && StrictlyIncreasing(ix)
      && (forall k :: 0 <= k < |ix| ==> ix[k] < |rows| && Select(rows, t)[k] == rows[ix[k]])
    ensures forall i :: 0 <= i < |rows| ==> (i in SelectIndices(rows, t) <==> Passes(rows[i], t))
    ensures forall x :: x in Select(rows, t) <==> x in rows && Passes(x, t)
  {
    var ix := SelectIndices(rows, t);
    SelectIndicesExactly(rows, t);
    SelectAt(rows, t);
    forall x | x in rows && Passes(x, t) ensures x in Select(rows, t) {
      var i :| 0 <= i < |rows| && rows[i] == x;
      var k :| 0 <= k < |ix| && ix[k] == i;
      assert Select(rows, t)[k] == x;
    }
  }

  /** Only which rows pass matters, not how the test is put. */
  lemma {:induction false} SelectSame(rows: seq<Row>, t1: Test, t2: Test)
    requires forall x :: Passes(x, t1) == Passes(x, t2)
    ensures Select(rows, t1) == Select(rows, t2)
    decreases |rows|
  {
    if rows != [] {
      SelectSame(rows[..|rows| - 1], t1, t2);
    }
  }

  /** Filtering by `t1` and then by `t2` is filtering by a test `t3` that
      passes exactly the rows passing both. */
  lemma {:induction false} SelectSelect(rows: seq<Row>, t1: Test, t2: Test, t3: Test)
    requires forall x :: Passes(x, t3) == (Passes(x, t1) && Passes(x, t2))
    ensures Select(Select(rows, t1), t2) == Select(rows, t3)
    decreases |rows|
  {
    if rows != [] {
      var init, last := rows[..|rows| - 1], rows[|rows| - 1];
      var s := Select(init, t1);
      SelectSelect(init, t1, t2, t3);
      if Passes(last, t1) {
        assert Select(rows, t1) == s + [last];
        SelectSnoc(s, last, t2);
      } else {
        assert Select(rows, t1) == s;
      }
    }
  }

  lemma SelectSnoc(rows: seq<Row>, x: Row, t: Test)
    ensures Select(rows + [x], t) == Select(rows, t) + (if Passes(x, t) then [x] else [])
  {
    assert (rows + [x])[..|rows|] == rows;
  }

  /** The column-filter loop of applyAllFilters, one filter at a time in the
      order of `filters`. */
  function ApplyColumnFilters(rows: seq<Row>, headers: Row, filters: seq<(string, string)>): (r: seq<Row>)
    ensures |r| <= |rows|
    ensures forall x :: x in r ==> x in rows && PassesColumns(x, headers, filters)
    decreases |filters|
  {
    if filters == [] then rows
    else
      var prev := ApplyColumnFilters(rows, headers, filters[..|filters| - 1]);
      assert forall k :: 0 <= k < |filters| - 1 ==> filters[..|filters| - 1][k] == filters[k];
      var (col, val) := filters[|filters| - 1];
      var idx := IndexOf(headers, col);
      if idx == -1 then prev else Select(prev, ColumnTest(idx, val))
  }

  /** The filtered view `applyAllFilters(q)` computes. */
  function Where(rows: seq<Row>, headers: Row, filters: seq<(string, string)>, q: string): (r: seq<Row>)
    ensures |r| <= |rows|
    ensures forall x :: x in r ==> x in rows && Keep(x, headers, filters, q)
  {
    var c := ApplyColumnFilters(rows, headers, filters);
    if q == "" then c else Select(c, GlobalTest(q))
  }

  // ---------------------------------------------------------------------
  // Properties of the filtered view
  // ---------------------------------------------------------------------

  lemma {:induction false} SelectAll(rows: seq<Row>)
    ensures Select(rows, NoTest) == rows
    decreases |rows|
  {
    if rows != [] {
      SelectAll(rows[..|rows| - 1]);
    }
  }

  /** The column filters applied one after another keep exactly the rows
      passing all of them. */
  lemma {:induction false} ColumnFiltersSelect(rows: seq<Row>, headers: Row, filters: seq<(string, string)>)
    ensures ApplyColumnFilters(rows, headers, filters) == Select(rows, AllTests(headers, filters, ""))
    decreases |filters|
  {
    if filters == [] {
      SelectAll(rows);
      SelectSame(rows, NoTest, AllTests(headers, filters, ""));
    } else {
      var init := filters[..|filters| - 1];
      var f := filters[|filters| - 1];
      ColumnFiltersSelect(rows, headers, init);
      var idx := IndexOf(headers, f.0);
      forall r ensures PassesColumns(r, headers, filters) == (PassesColumns(r, headers, init) && PassesColumn(r, headers, f)) {
        assert forall k :: 0 <= k < |init| ==> init[k] == filters[k];
      }
      if idx == -1 {
        SelectSame(rows, AllTests(headers, init, ""), AllTests(headers, filters, ""));
      } else {
        SelectSelect(rows, AllTests(headers, init, ""), ColumnTest(idx, f.1), AllTests(headers, filters, ""));
      }
    }
  }

  /** Applying the filters one after another keeps exactly the rows that pass
      all of them together. */
  lemma WhereIsSelect(rows: seq<Row>, headers: Row, filters: seq<(string, string)>, q: string)
    ensures Where(rows, headers, filters, q) == Select(rows, AllTests(headers, filters, q))
  {
    ColumnFiltersSelect(rows, headers, filters);
    if q == "" {
      SelectSame(rows, AllTests(headers, filters, ""), AllTests(headers, filters, q));
    } else {
      SelectSelect(rows, AllTests(headers, filters, ""), GlobalTest(q), AllTests(headers, filters, q));
    }
  }

  /** The filtered view is an order-preserving subsequence of the rows: the
      rows at exactly the positions whose row passes every column filter
      whose column exists and, for a non-empty query, the global test. */
  lemma WhereSubsequence(rows: seq<Row>, headers: Row, filters: seq<(string, string)>, q: string)
    ensures var view := Where(rows, headers, filters, q);
      var ix := SelectIndices(rows, AllTests(headers, filters, q));
      && |ix| == |view|
      && StrictlyIncreasing(ix)
      && (forall k :: 0 <= k < |ix| ==> ix[k] < |rows| && view[k] == rows[ix[k]])
      && (forall i :: 0 <= i < |rows| ==> (i in ix <==> Keep(rows[i], headers, filters, q)))
    ensures forall x :: x in Where(rows, headers, filters, q) <==> x in rows && Keep(x, headers, filters, q)
  {
    WhereIsSelect(rows, headers, filters, q);
    SelectSubsequence(rows, AllTests(headers, filters, q));
  }

  /** Every kept row has, under each known filter column, a cell containing
      that filter's term once lower-cased. */
  lemma WhereColumnsHold(rows: seq<Row>, headers: Row, filters: seq<(string, string)>, q: string)
    ensures forall x, k :: x in Where(rows, headers, filters, q) && 0 <= k < |filters| && IndexOf(headers, filters[k].0) != -1 ==>
      Contains(Lower(CellString(x, IndexOf(headers, filters[k].0))), filters[k].1)
  {
    WhereSubsequence(rows, headers, filters, q);
  }

  /** With no column filter, a non-empty global query keeps exactly the rows
      having some cell that contains it once lower-cased. */
  lemma WhereGlobalOnly(rows: seq<Row>, headers: Row, q: string)
    requires q != ""
    ensures forall x :: x in Where(rows, headers, [], q) <==> x in rows && exists c | 0 <= c < |x| :: Contains(Lower(x[c]), q)
  {
    WhereSubsequence(rows, headers, [], q);
  }

  /** Filters on columns missing from the header row exclude nothing. */
  lemma {:induction false} WhereUnknownColumns(rows: seq<Row>, headers: Row, filters: seq<(string, string)>)
    requires forall k :: 0 <= k < |filters| ==> filters[k].0 !in headers
    ensures Where(rows, headers, filters, "") == rows
    decreases |filters|
  {
    if filters != [] {
      var init := filters[..|filters| - 1];
      WhereUnknownColumns(rows, headers, init);
    }
  }

  /** Adding a filter on a column missing from the header row changes nothing. */
  lemma WhereUnknownColumnNoOp(rows: seq<Row>, headers: Row, filters: seq<(string, string)>, col: string, val: string, q: string)
    requires col !in headers
    ensures Where(rows, headers, filters + [(col, val)], q) == Where(rows, headers, filters, q)
  {
    assert (filters + [(col, val)])[..|filters|] == filters;
  }

  /** Filtering the filtered view again with the same filters changes nothing. */
  lemma WhereIdempotent(rows: seq<Row>, headers: Row, filters: seq<(string, string)>, q: string)
    ensures Where(Where(rows, headers, filters, q), headers, filters, q) == Where(rows, headers, filters, q)
  {
    var t := AllTests(headers, filters, q);
    WhereIsSelect(rows, headers, filters, q);
    WhereIsSelect(Select(rows, t), headers, filters, q);
    SelectSelect(rows, t, t, t);
  }

  /** The order of the column filters does not matter to the result: two
      filter lists holding the same (column, term) pairs give the same view. */
  lemma WhereOrderIrrelevant(rows: seq<Row>, headers: Row, f1: seq<(string, string)>, f2: seq<(string, string)>, q: string)
    requires forall f :: f in f1 <==> f in f2
    ensures Where(rows, headers, f1, q) == Where(rows, headers, f2, q)
  {
    WhereIsSelect(rows, headers, f1, q);
    WhereIsSelect(rows, headers, f2, q);
    forall r ensures PassesColumns(r, headers, f1) == PassesColumns(r, headers, f2) {
      if PassesColumns(r, headers, f1) {
        forall k | 0 <= k < |f2| ensures PassesColumn(r, headers, f2[k]) {
          assert f2[k] in f1;
        }
      }
      if PassesColumns(r, headers, f2) {
        forall k | 0 <= k < |f1| ensures PassesColumn(r, headers, f1[k]) {
          assert f1[k] in f2;
        }
      }
    }
    SelectSame(rows, AllTests(headers, f1, q), AllTests(headers, f2, q));
  }

  // ---------------------------------------------------------------------
  // The column-filter map
  // ---------------------------------------------------------------------

  /** `columnFilters`: (column name, lower-cased term) pairs in insertion order. */
  type ColumnFilters = seq<(string, string)>

  function Keys(fs: ColumnFilters): (ks: seq<string>)
    ensures |ks| == |fs| && forall i :: 0 <= i < |fs| ==> ks[i] == fs[i].0
  {
    seq(|fs|, i requires 0 <= i < |fs| => fs[i].0)
  }

  /** `Object.values(columnFilters)`. */
  function Values(fs: ColumnFilters): (vs: seq<string>)
    ensures |vs| == |fs| && forall i :: 0 <= i < |fs| ==> vs[i] == fs[i].1
  {
    seq(|fs|, i requires 0 <= i < |fs| => fs[i].1)
  }

  /** An object has each key at most once. */
  predicate UniqueKeys(fs: ColumnFilters) {
    forall i, j :: 0 <= i < j < |fs| ==> fs[i].0 != fs[j].0
  }

  /** `columnFilters[col]`, or None when the key is absent. */
  function Lookup(fs: ColumnFilters, col: string): (v: Option<string>)
    ensures v.None? <==> col !in Keys(fs)
  {
    var i := IndexOf(Keys(fs), col);
    if i == -1 then None else Some(fs[i].1)
  }

  /** The key `__proto__` of a plain object `{}`: assigning a string to it
      goes to the prototype setter, which ignores it, so no entry is made. */
  const ProtoKey: string := "__proto__"

  /** `columnFilters[col] = val`: an existing key keeps its place and takes
      the new term, a new one goes last; `__proto__` is never stored. */
  function Put(fs: ColumnFilters, col: string, val: string): (r: ColumnFilters)
    ensures col == ProtoKey ==> r == fs
    ensures col != ProtoKey ==> Lookup(r, col) == Some(val)
    ensures col != ProtoKey && col in Keys(fs) ==> Keys(r) == Keys(fs)
    ensures col != ProtoKey && col !in Keys(fs) ==> Keys(r) == Keys(fs) + [col]
  {
    if col == ProtoKey then fs
    else
      var i := IndexOf(Keys(fs), col);
      if i == -1 then
        assert Keys(fs + [(col, val)]) == Keys(fs) + [col];
        fs + [(col, val)]
      else
        assert Keys(fs[i := (col, val)]) == Keys(fs);
        fs[i := (col, val)]
  }

  /** `delete columnFilters[col]`: the entries of other columns, in order. */
  function Remove(fs: ColumnFilters, col: string): (r: ColumnFilters)
    ensures |r| <= |fs|
    ensures forall p :: p in r <==> p in fs && p.0 != col
    decreases |fs|
  {
    if fs == [] then []
    else
      assert fs == [fs[0]] + fs[1..];
      (if fs[0].0 == col then [] else [fs[0]]) + Remove(fs[1..], col)
  }

  /** The edit `onColumnFilterChange` makes for an input typed under column
      `col`: a non-empty trimmed, lower-cased input becomes the column's term,
      an empty one removes the column's filter. */
  function ColumnFilterChange(fs: ColumnFilters, col: string, input: string): (r: ColumnFilters)
    ensures Lower(Trim(input)) == "" ==> col !in Keys(r)
    ensures Lower(Trim(input)) != "" && col != ProtoKey ==> Lookup(r, col) == Some(Lower(Trim(input)))
    ensures Lower(Trim(input)) != "" && col == ProtoKey ==> r == fs
  {
    var val := Lower(Trim(input));
    if val != "" then Put(fs, col, val)
    else
      RemoveDropsKey(fs, col);
      Remove(fs, col)
  }

  /** After `delete`, the column is no longer a key. */
  lemma RemoveDropsKey(fs: ColumnFilters, col: string)
    ensures col !in Keys(Remove(fs, col))
  {
    var r := Remove(fs, col);
    forall j | 0 <= j < |r| ensures Keys(r)[j] != col {
      assert r[j] in r;
    }
  }

  /** `delete` works entry by entry: deleting from two parts of the map is
      deleting from each part and keeping the parts in order. */
  lemma {:induction false} RemoveAppend(a: ColumnFilters, b: ColumnFilters, col: string)
    ensures Remove(a + b, col) == Remove(a, col) + Remove(b, col)
    decreases |a|
  {
    if a == [] {
      assert a + b == b;
    } else {
      assert (a + b)[0] == a[0];
      assert (a + b)[1..] == a[1..] + b;
      RemoveAppend(a[1..], b, col);
    }
  }

  /** Deleting a key the map does not hold changes nothing. */
  lemma {:induction false} RemoveAbsent(fs: ColumnFilters, col: string)
    requires col !in Keys(fs)
    ensures Remove(fs, col) == fs
    decreases |fs|
  {
    if fs != [] {
      assert Keys(fs)[0] == fs[0].0;
      assert Keys(fs[1..]) == Keys(fs)[1..];
      RemoveAbsent(fs[1..], col);
    }
  }

  /** `delete columnFilters[col]` takes out the one entry of `col` and keeps
      every other entry in its insertion order. */
  lemma RemoveAt(fs: ColumnFilters, col: string)
    requires UniqueKeys(fs)
    ensures var i := IndexOf(Keys(fs), col);
      Remove(fs, col) == if i == -1 then fs else fs[..i] + fs[i + 1..]
  {
    var ks := Keys(fs);
    var i := IndexOf(ks, col);
    if i == -1 {
      RemoveAbsent(fs, col);
    } else {
      var before, after := fs[..i], fs[i + 1..];
      assert fs == before + [fs[i]] + after;
      assert Keys(before) == ks[..i];
      assert col !in Keys(after) by {
        forall j | 0 <= j < |after| ensures Keys(after)[j] != col {
          assert after[j] == fs[i + 1 + j];
        }
      }
      RemoveAbsent(before, col);
      RemoveAbsent(after, col);
      RemoveAppend(before + [fs[i]], after, col);
      RemoveAppend(before, [fs[i]], col);
      assert [fs[i]][1..] == [];
      assert Remove([fs[i]], col) == [];
      assert before + [] == before;
    }
  }

  lemma {:induction false} RemoveUnique(fs: ColumnFilters, col: string)
    requires UniqueKeys(fs)
    ensures UniqueKeys(Remove(fs, col))
    decreases |fs|
  {
    if fs != [] {
      var tail := fs[1..];
      assert UniqueKeys(tail) by {
        forall i, j | 0 <= i < j < |tail| ensures tail[i].0 != tail[j].0 {
          assert tail[i] == fs[i + 1] && tail[j] == fs[j + 1];
        }
      }
      RemoveUnique(tail, col);
      var rest := Remove(tail, col);
      if fs[0].0 != col {
        forall j | 0 <= j < |rest| ensures rest[j].0 != fs[0].0 {
          assert rest[j] in tail;
          var m :| 0 <= m < |tail| && tail[m] == rest[j];
          assert fs[m + 1] == rest[j];
        }
        ConsUnique(fs[0], rest);
        assert Remove(fs, col) == [fs[0]] + rest;
      } else {
        assert Remove(fs, col) == rest;
      }
    }
  }

  /** A pair whose key the rest lacks keeps the keys unique. */
  lemma ConsUnique(p: (string, string), rest: ColumnFilters)
    requires UniqueKeys(rest) && forall j :: 0 <= j < |rest| ==> rest[j].0 != p.0
    ensures UniqueKeys([p] + rest)
  {
    var r := [p] + rest;
    forall i, j | 0 <= i < j < |r| ensures r[i].0 != r[j].0 {
      if i == 0 {
        assert r[j] == rest[j - 1];
      } else {
        assert r[i] == rest[i - 1] && r[j] == rest[j - 1];
      }
    }
  }

  lemma LookupAt(fs: ColumnFilters, col: string, i: int)
    requires UniqueKeys(fs) && 0 <= i < |fs| && fs[i].0 == col
    ensures Lookup(fs, col) == Some(fs[i].1)
  {
    var ks := Keys(fs);
    assert ks[i] == col;
    assert forall j :: 0 <= j < |fs| && j != i ==> ks[j] != col;
  }

  /** Setting a key that is not there yet: it is added, unless it is
      `__proto__`. */
  lemma PutNew(fs: ColumnFilters, col: string, val: string)
    requires UniqueKeys(fs) && col !in Keys(fs)
    ensures var r := Put(fs, col, val);
      && UniqueKeys(r)
      && Lookup(r, col) == (if col == ProtoKey then None else Some(val))
      && forall other :: other != col ==> Lookup(r, other) == Lookup(fs, other)
  {
    if col == ProtoKey {
      return;
    }
    var r := fs + [(col, val)];
    assert Keys(r) == Keys(fs) + [col];
    forall a, b | 0 <= a < b < |r| ensures r[a].0 != r[b].0 {
      if b == |fs| { assert Keys(fs)[a] == fs[a].0; }
    }
    LookupAt(r, col, |fs|);
    forall other | other != col ensures Lookup(r, other) == Lookup(fs, other) {
      IndexOfAppend(Keys(fs), col, other);
    }
  }

  /** Setting a key that is already at position `i`: it keeps its place
      and takes the new term, unless it is `__proto__`. */
  lemma PutExisting(fs: ColumnFilters, col: string, val: string, i: int)
    requires UniqueKeys(fs) && 0 <= i < |fs| && fs[i].0 == col
    ensures var r := Put(fs, col, val);
      && r == (if col == ProtoKey then fs else fs[i := (col, val)])
      && UniqueKeys(r)
      && Lookup(r, col) == Some(if col == ProtoKey then fs[i].1 else val)
      && forall other :: other != col ==> Lookup(r, other) == Lookup(fs, other)
  {
    LookupAt(fs, col, i);
    if col == ProtoKey {
      return;
    }
    var r := fs[i := (col, val)];
    assert Keys(r) == Keys(fs);
    LookupAt(r, col, i);
  }

  /** Deleting a key. */
  lemma RemoveLookup(fs: ColumnFilters, col: string)
    requires UniqueKeys(fs)
    ensures var r := Remove(fs, col);
      && UniqueKeys(r)
      && Lookup(r, col) == None
      && forall other :: other != col ==> Lookup(r, other) == Lookup(fs, other)
  {
    RemoveUnique(fs, col);
    RemoveDropsKey(fs, col);
    forall other | other != col ensures Lookup(Remove(fs, col), other) == Lookup(fs, other) {
      RemoveKeepsOther(fs, col, other);
    }
  }

  /** `delete` leaves the lookup of any other column alone. */
  lemma RemoveKeepsOther(fs: ColumnFilters, col: string, other: string)
    requires UniqueKeys(fs) && other != col
    ensures Lookup(Remove(fs, col), other) == Lookup(fs, other)
  {
    var r := Remove(fs, col);
    RemoveUnique(fs, col);
    if other in Keys(fs) {
      var k := IndexOf(Keys(fs), other);
      assert fs[k] in r;
      var j :| 0 <= j < |r| && r[j] == fs[k];
      LookupAt(r, other, j);
      LookupAt(fs, other, k);
    } else {
      forall j | 0 <= j < |r| ensures Keys(r)[j] != other {
        assert r[j] in r;
        var m :| 0 <= m < |fs| && fs[m] == r[j];
        assert Keys(fs)[m] == fs[m].0;
      }
    }
  }

  /** After an edit under column `col`: the key is absent when the trimmed,
      lower-cased input is empty, and otherwise maps to it, except that an
      edit under `__proto__` stores nothing; every other key keeps its value;
      keys stay unique. */
  lemma ColumnFilterChangeSpec(fs: ColumnFilters, col: string, input: string)
    requires UniqueKeys(fs)
    ensures var r := ColumnFilterChange(fs, col, input);
      var val := Lower(Trim(input));
      && UniqueKeys(r)
      && Lookup(r, col) == (if val == "" then None else if col == ProtoKey then Lookup(fs, col) else Some(val))
      && forall other :: other != col ==> Lookup(r, other) == Lookup(fs, other)
  {
    var val := Lower(Trim(input));
    if val == "" {
      RemoveLookup(fs, col);
    } else if col in Keys(fs) {
      PutExisting(fs, col, val, IndexOf(Keys(fs), col));
    } else {
      PutNew(fs, col, val);
    }
  }

  /** The map never holds `__proto__`, so `Object.entries` and
      `Object.values` see every stored pair. */
  predicate ProtoKeyAbsent(fs: ColumnFilters) {
    ProtoKey !in Keys(fs)
  }

  /** Edits keep `__proto__` out of the map. */
  lemma ColumnFilterChangeNoProto(fs: ColumnFilters, col: string, input: string)
    requires ProtoKeyAbsent(fs)
    ensures ProtoKeyAbsent(ColumnFilterChange(fs, col, input))
  {
    var r := ColumnFilterChange(fs, col, input);
    if Lower(Trim(input)) == "" {
      forall j | 0 <= j < |r| ensures Keys(r)[j] != ProtoKey {
        assert r[j] in r;
        var m :| 0 <= m < |fs| && fs[m] == r[j];
        assert Keys(fs)[m] == fs[m].0;
      }
    }
  }

  /** Every stored term is non-empty. */
  predicate TermsNonEmpty(fs: ColumnFilters) {
    forall i :: 0 <= i < |fs| ==> fs[i].1 != ""
  }

  /** Edits never store an empty term, so every highlight term taken from the
      map is one `highlight` does not skip. */
  lemma ColumnFilterChangeNonEmpty(fs: ColumnFilters, col: string, input: string)
    requires TermsNonEmpty(fs)
    ensures TermsNonEmpty(ColumnFilterChange(fs, col, input))
  {
    var r := ColumnFilterChange(fs, col, input);
    if Lower(Trim(input)) == "" {
      forall i | 0 <= i < |r| ensures r[i].1 != "" {
        assert r[i] in fs;
      }
    }
  }

  /** `highlightQueries`: the column filter terms in map order, then the
      global query if it is non-empty. */
  function HighlightTerms(fs: ColumnFilters, q: string): (terms: seq<string>)
    ensures |terms| == |fs| + (if q != "" then 1 else 0)
    ensures forall i :: 0 <= i < |fs| ==> terms[i] == fs[i].1
    ensures q != "" ==> terms[|fs|] == q
    ensures forall t :: t in terms <==> (exists i | 0 <= i < |fs| :: fs[i].1 == t) || (q != "" && t == q)
  {
    Values(fs) + (if q != "" then [q] else [])
  }

  /** Filtering three rows, spelled out. */
  lemma SelectThree(a: Row, b: Row, c: Row, t: Test)
    ensures Select([a, b, c], t)
         == (if Passes(a, t) then [a] else []) + (if Passes(b, t) then [b] else []) + (if Passes(c, t) then [c] else [])
  {
    SelectSnoc([], a, t);
    SelectSnoc([a], b, t);
    SelectSnoc([a, b], c, t);
    assert [] + [a] == [a] && [a] + [b] == [a, b] && [a, b] + [c] == [a, b, c];
  }

  /** A string lacking one of the characters of `p` does not contain `p`. */
  lemma MissingChar(t: string, p: string, c: char)
    requires c in p && c !in t
    ensures !Contains(t, p)
  {
  }

  /** Which scenario rows pass the column test Name: "an". */
  lemma ScenarioNameTests()
    ensures Passes(["Ann", "30"], ColumnTest(0, "an"))
    ensures !Passes(["Bo", "25"], ColumnTest(0, "an"))
    ensures Passes(["Anna", "22"], ColumnTest(0, "an"))
  {
    assert Lower("Ann") == "ann" && Lower("Bo") == "bo" && Lower("Anna") == "anna";
    assert OccursAt("ann", "an", 0) && OccursAt("anna", "an", 0);
    MissingChar("bo", "an", 'a');
  }

  /** A row none of whose lower-cased cells holds the character `c` of `q`
      fails the global test for `q`. */
  lemma MissingCharInRow(r: Row, q: string, c: char)
    requires c in q && forall j :: 0 <= j < |r| ==> c !in Lower(r[j])
    ensures !KeepGlobal(r, q)
  {
    forall j | 0 <= j < |r| ensures !Contains(Lower(r[j]), q) {
      MissingChar(Lower(r[j]), q, c);
    }
  }

  /** Which scenario rows pass the global test "25". */
  lemma ScenarioGlobalTests()
    ensures !Passes(["Ann", "30"], GlobalTest("25"))
    ensures Passes(["Bo", "25"], GlobalTest("25"))
    ensures !Passes(["Anna", "22"], GlobalTest("25"))
  {
    assert Lower("Ann") == "ann" && Lower("30") == "30";
    MissingCharInRow(["Ann", "30"], "25", '2');
    assert Lower("Anna") == "anna" && Lower("22") == "22";
    MissingCharInRow(["Anna", "22"], "25", '5');
    assert Lower("25") == "25";
    assert OccursAt(Lower(["Bo", "25"][1]), "25", 0);
  }

  /** The scenario, column part: headers Name and Age; the column filter
      Name: "an" keeps Ann and Anna and drops Bo. */
  lemma ScenarioColumnFilter()
    ensures Where([["Ann", "30"], ["Bo", "25"], ["Anna", "22"]], ["Name", "Age"], [("Name", "an")], "")
         == [["Ann", "30"], ["Anna", "22"]]
  {
    var headers := ["Name", "Age"];
    var ann, bo, anna := ["Ann", "30"], ["Bo", "25"], ["Anna", "22"];
    var rows := [ann, bo, anna];
    var t := ColumnTest(0, "an");
    ScenarioNameTests();
    SelectThree(ann, bo, anna, t);
    assert IndexOf(headers, "Name") == 0;
    assert [("Name", "an")][..0] == [];
    assert ApplyColumnFilters(rows, headers, [("Name", "an")]) == Select(rows, t);
  }

  /** The scenario, global part: with no column filter, the global query
      "25" keeps only Bo. */
  lemma ScenarioGlobalQuery()
    ensures Where([["Ann", "30"], ["Bo", "25"], ["Anna", "22"]], ["Name", "Age"], [], "25") == [["Bo", "25"]]
  {
    var ann, bo, anna := ["Ann", "30"], ["Bo", "25"], ["Anna", "22"];
    ScenarioGlobalTests();
    SelectThree(ann, bo, anna, GlobalTest("25"));
  }
}
