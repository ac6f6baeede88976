/** The generic table browser: the page of rows asked of the backend, the
    flattening of the stock table's medication join, the columns, the CSV
    export, the search box, the low-stock marker and the page buttons. */
module DataTable {
  import opened Wrappers
  import opened Seqs
  import opened JsText
  import opened JsValue
  import opened Csv
  import opened Inventory

  /** Rows per page. */
  const PageSize: nat := 15

  /** The inclusive bounds `.range(from, to)` asks for on page `page`. */
  function PageRange(page: nat): (r: (nat, nat))
  {
    (page * PageSize, (page + 1) * PageSize - 1)
  }

  /** `n` capped at the table's length. */
  function Cap(table: seq<Row>, n: nat): nat {
    if n < |table| then n else |table|
  }

  /** What the backend returns for an inclusive range over a table's rows:
      the rows from `from` to `to` that exist, in table order. */
  function FetchRange(table: seq<Row>, from: nat, to: nat): (r: seq<Row>)
    ensures to < from ==> r == []
    ensures from <= to + 1 ==> r == table[Cap(table, from)..Cap(table, to + 1)]
    ensures forall i :: 0 <= i < |r| ==> from + i < |table| && r[i] == table[from + i]
  {
    if from >= |table| || to < from then []
    else table[from..if to + 1 < |table| then to + 1 else |table|]
  }

  /** The rows of page `page`: the slice of the table from the page's first
      index to the next page's, cut at the table's end. */
  function FetchPage(table: seq<Row>, page: nat): (r: seq<Row>)
    ensures |r| <= PageSize
    ensures r == table[Cap(table, page * PageSize)..Cap(table, (page + 1) * PageSize)]
    ensures forall i :: 0 <= i < |r| ==> page * PageSize + i < |table| && r[i] == table[page * PageSize + i]
  {
    var range := PageRange(page);
    assert range.1 + 1 == (page + 1) * PageSize;
    FetchRange(table, range.0, range.1)
  }

  /** Row `n` of the table is fetched on page `n / PageSize`, at position
      `n % PageSize`; past the table's end that position is empty. */
  lemma PageOfIndex(table: seq<Row>, n: nat)
    ensures n % PageSize < |FetchPage(table, n / PageSize)| <==> n < |table|
    ensures n < |table| ==> FetchPage(table, n / PageSize)[n % PageSize] == table[n]
  {
    var p := n / PageSize;
    assert p * PageSize + n % PageSize == n;
  }

  /** Pages 0 to k - 1, one after another. */
  function FirstPages(table: seq<Row>, k: nat): seq<Row> {
    if k == 0 then [] else FirstPages(table, k - 1) + FetchPage(table, k - 1)
  }

  /** Reading page after page gives the table's rows in order, with no row
      skipped or repeated. */
  lemma {:induction false} FirstPagesArePrefix(table: seq<Row>, k: nat)
    ensures FirstPages(table, k) == table[..Cap(table, k * PageSize)]
  {
    if k > 0 {
      FirstPagesArePrefix(table, k - 1);
      var lo := Cap(table, (k - 1) * PageSize);
      var hi := Cap(table, k * PageSize);
      assert (k - 1) * PageSize <= k * PageSize;
      assert table[..lo] + table[lo..hi] == table[..hi];
    }
  }

  /** A page with fewer than `PageSize` rows is the last one with rows: every
      later page is empty. */
  lemma ShortPageIsLast(table: seq<Row>, page: nat)
    requires |FetchPage(table, page)| < PageSize
    ensures forall q :: q > page ==> FetchPage(table, q) == []
  {
    assert |table| < (page + 1) * PageSize;
    forall q | q > page ensures FetchPage(table, q) == [] {
      assert (page + 1) * PageSize <= q * PageSize;
    }
  }

  /** The stock query's row: the join `medicaments: { Nom }` becomes a plain
      `medicament_nom` column and the `medicaments` key is dropped. Rows
      without a (truthy) join are left alone. */
  function Flatten(item: Row): (r: Row)
    ensures !Truthy(Get(item, "medicaments")) ==> r == item
    ensures Truthy(Get(item, "medicaments")) ==>
      !Has(r, "medicaments") && Has(r, "medicament_nom") &&
      Get(r, "medicament_nom") == Property(Get(item, "medicaments"), "Nom")
    ensures forall k :: k != "medicaments" && k != "medicament_nom" ==>
      Get(r, k) == Get(item, k) && (Has(r, k) <==> Has(item, k))
    ensures UniqueKeys(item) ==> UniqueKeys(r)
  {
    var m := Get(item, "medicaments");
    if Truthy(m) then Delete(Set(item, "medicament_nom", Property(m, "Nom")), "medicaments") else item
  }

  /** Flattening a flattened row changes nothing. */
  lemma FlattenIdempotent(item: Row)
    ensures Flatten(Flatten(item)) == Flatten(item)
  {
    var r := Flatten(item);
    if Truthy(Get(item, "medicaments")) {
      assert Get(r, "medicaments") == Undefined;
    }
  }

  /** The browser's loaded rows and columns. */
  datatype Loaded = Loaded(data: seq<Row>, columns: seq<string>)

  /** `fetchData`: on a backend error the previous rows and columns stay; an
      empty page clears both; otherwise the rows are flattened and the
      columns are the keys of the first flattened row. */
  function Load(prev: Loaded, fetched: seq<Row>, fault: Option<string>): (r: Loaded)
    ensures fault.Some? ==> r == prev
    ensures fault.None? ==> |r.data| == |fetched| && forall i :: 0 <= i < |fetched| ==> r.data[i] == Flatten(fetched[i])
    ensures fault.None? && fetched == [] ==> r.columns == []
    ensures fault.None? && fetched != [] ==> r.columns == Keys(r.data[0])
  {
    if fault.Some? then prev
    else if fetched == [] then Loaded([], [])
    else
      var data := seq(|fetched|, i requires 0 <= i < |fetched| => Flatten(fetched[i]));
      Loaded(data, Keys(data[0]))
  }

  /** A loaded stock page shows the medication name as a column and never the
      join object. */
  lemma LoadedColumns(prev: Loaded, fetched: seq<Row>)
    requires fetched != [] && Truthy(Get(fetched[0], "medicaments"))
    ensures var r := Load(prev, fetched, None);
      "medicament_nom" in r.columns && "medicaments" !in r.columns
  {
    var r := Load(prev, fetched, None);
    HasIffKey(r.data[0], "medicament_nom");
    HasIffKey(r.data[0], "medicaments");
  }

  /** A CSV cell's text: `String(v || '')`, so falsy values give an empty cell. */
  function CellText(v: Value): (t: string)
    ensures !Truthy(v) ==> t == ""
    ensures Truthy(v) ==> t == ToStr(v)
  {
    ToStr(Or(v, Str("")))
  }

  /** The cell texts of every loaded row, one per column. */
  function CellRows(columns: seq<string>, data: seq<Row>): (rs: seq<seq<string>>)
    ensures |rs| == |data|
    ensures forall i :: 0 <= i < |data| ==> |rs[i]| == |columns|
    ensures forall i, j :: 0 <= i < |data| && 0 <= j < |columns| ==> rs[i][j] == CellText(Get(data[i], columns[j]))
  {
    seq(|data|, i requires 0 <= i < |data| =>
      seq(|columns|, j requires 0 <= j < |columns| => CellText(Get(data[i], columns[j]))))
  }

  /** `handleExportCSV`: nothing without loaded rows; otherwise the column
      names joined by commas, then one line of quoted cells per loaded row. */
  function ExportCsv(columns: seq<string>, data: seq<Row>): (r: Option<string>)
    ensures r.None? <==> data == []
  {
    if data == [] then None
    else Some(Join(columns, ',') + "\n" + QuotedLines(CellRows(columns, data)))
  }

  /** Read back with a CSV reader, the export gives the header and then one
      record per loaded row holding that row's cell texts: the search term
      does not enter into it. Column names must be plain CSV text, since the
      header is written unquoted. */
  lemma ExportRoundTrip(columns: seq<string>, data: seq<Row>)
    requires data != [] && columns != []
    requires forall j :: 0 <= j < |columns| ==> PlainText(columns[j])
    ensures ExportCsv(columns, data).Some?
    ensures ParseCsv(ExportCsv(columns, data).value) == Some([columns] + CellRows(columns, data))
    ensures |[columns] + CellRows(columns, data)| == |data| + 1
  {
    DocumentRoundTrip(columns, CellRows(columns, data));
  }

  /** One value of a row matches the lower-cased term. */
  predicate ValueMatches(v: Value, lowered: string) {
    Includes(ToLower(ToStr(v)), lowered)
  }

  /** `values.some(val => ...)`, scanning left to right. */
  predicate SomeValueMatches(vs: seq<Value>, lowered: string) {
    vs != [] && (ValueMatches(vs[0], lowered) || SomeValueMatches(vs[1..], lowered))
  }

  /** The scan finds a match exactly when some value matches. */
  lemma {:induction false} SomeValueMatchesIff(vs: seq<Value>, lowered: string)
    ensures SomeValueMatches(vs, lowered) <==> exists i :: 0 <= i < |vs| && ValueMatches(vs[i], lowered)
  {
    if vs != [] {
      SomeValueMatchesIff(vs[1..], lowered);
      if exists i :: 0 <= i < |vs| && ValueMatches(vs[i], lowered) {
        var i :| 0 <= i < |vs| && ValueMatches(vs[i], lowered);
        if i > 0 {
          assert ValueMatches(vs[1..][i - 1], lowered);
        }
      }
      if SomeValueMatches(vs[1..], lowered) {
        var i :| 0 <= i < |vs[1..]| && ValueMatches(vs[1..][i], lowered);
        assert ValueMatches(vs[i + 1], lowered);
      }
    }
  }

  /** Some property value of `item` matches the lower-cased term. */
  predicate RowMatches(item: Row, lowered: string) {
    exists i :: 0 <= i < |item| && ValueMatches(item[i].val, lowered)
  }

  function SearchPredicate(term: string): Row -> bool {
    item => SomeValueMatches(Values(item), ToLower(term))
  }

  /** `filteredData`: the loaded rows, in order, with some value whose string
      form contains the term, ignoring case. */
  function FilteredData(data: seq<Row>, term: string): (r: seq<Row>)
    ensures SubsequenceOf(r, data)
    ensures forall item :: item in r <==> item in data && RowMatches(item, ToLower(term))
    ensures forall item :: multiset(r)[item] == if RowMatches(item, ToLower(term)) then multiset(data)[item] else 0
    ensures |r| == Count(data, SearchPredicate(term))
  {
    var p := SearchPredicate(term);
    FilterSpec(data, p);
    forall item: Row
      ensures p(item) <==> RowMatches(item, ToLower(term))
      ensures multiset(Filter(data, p))[item] == if RowMatches(item, ToLower(term)) then multiset(data)[item] else 0
    {
      SomeValueMatchesIff(Values(item), ToLower(term));
      if exists i :: 0 <= i < |Values(item)| && ValueMatches(Values(item)[i], ToLower(term)) {
        var i :| 0 <= i < |Values(item)| && ValueMatches(Values(item)[i], ToLower(term));
        assert ValueMatches(item[i].val, ToLower(term));
      }
      if RowMatches(item, ToLower(term)) {
        var i :| 0 <= i < |item| && ValueMatches(item[i].val, ToLower(term));
        assert ValueMatches(Values(item)[i], ToLower(term));
      }
      FilterMultiplicity(data, p, item);
    }
    Filter(data, p)
  }

  predicate HasProperty(item: Row) {
    item != []
  }

  /** An empty search keeps every row that has at least one property: a row
      with no properties has no value to match, even the empty term. */
  lemma EmptySearch(data: seq<Row>)
    ensures FilteredData(data, "") == Filter(data, HasProperty)
  {
    forall i | 0 <= i < |data| ensures SearchPredicate("")(data[i]) == HasProperty(data[i]) {
      var vs := Values(data[i]);
      if vs != [] {
        IncludesIff(ToLower(ToStr(vs[0])), "");
        assert OccursAt(ToLower(ToStr(vs[0])), "", 0);
      }
    }
    FilterCongruent(data, SearchPredicate(""), HasProperty);
  }

  /** The red "Low Stock" marker on a cell: stock table, `quantite` column,
      low quantity. */
  predicate LowStockMarker(table: string, column: string, v: Value) {
    table == "stock" && column == "quantite" && LowQuantity(v)
  }

  /** The marker shows only in the stock table's quantity column, and there
      exactly on low quantities: 19 is marked and 20 is not. */
  lemma LowStockMarkerIff(table: string, column: string, n: real)
    ensures LowStockMarker(table, column, Num(n)) <==> table == "stock" && column == "quantite" && n < 20.0
    ensures LowStockMarker("stock", "quantite", Num(19.0)) && !LowStockMarker("stock", "quantite", Num(20.0))
  {
    LowQuantityOfNumber(n);
    LowQuantityOfNumber(19.0);
  }

  /** The page the "previous" button moves to: one back, never below 0. */
  function PreviousPage(page: nat): (p: nat)
    ensures page > 0 ==> p == page - 1
    ensures page == 0 ==> p == 0
  {
    if page >= 1 then page - 1 else 0
  }

  /** The "previous" button is disabled on the first page. */
  predicate PreviousDisabled(page: nat) {
    page == 0
  }

  /** The "next" button is disabled when the loaded page is short. */
  predicate NextDisabled(data: seq<Row>) {
    |data| < PageSize
  }

  /** Paging by the buttons never hides rows: when "next" is disabled on a
      page, no later page has rows, and when it is enabled the next page
      starts within the table or right at its end. */
  lemma NextButton(table: seq<Row>, page: nat)
    ensures NextDisabled(FetchPage(table, page)) ==> forall q :: q > page ==> FetchPage(table, q) == []
    ensures !NextDisabled(FetchPage(table, page)) ==> PageRange(page + 1).0 <= |table|
  {
    if NextDisabled(FetchPage(table, page)) {
      ShortPageIsLast(table, page);
    } else {
      var r := FetchPage(table, page);
      assert r[PageSize - 1] == table[page * PageSize + PageSize - 1];
    }
  }
}
