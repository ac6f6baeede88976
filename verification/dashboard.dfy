/** The dashboard's figures (`Dashboard.jsx`): record counts that default to
    0 and the number of stock rows running low, which decides whether the
    status summary raises an alert. */
module Dashboard {
  import opened Wrappers
  import opened Seqs
  import opened JsValue
  import opened Inventory
  import DataTable
  import Shell

  /** The four answers the dashboard waits for: the exact counts of
      medications, patients and exits (`null` when a count failed) and the
      stock rows' data (`None` for a failed query's `null`). */
  datatype Responses = Responses(medCount: Value, patientCount: Value, stock: Option<seq<Row>>, exitCount: Value)

  /** The figures shown. The inventory value is left out. */
  datatype Stats = Stats(totalMeds: Value, totalPatients: Value, totalExits: Value, lowStock: nat)

  /** The figures before any answer arrives, and after a failed fetch. */
  const InitialStats := Stats(Num(0.0), Num(0.0), Num(0.0), 0)

  /** The low-stock filter: `item.quantite < 20`. */
  function LowRowPredicate(): Row -> bool {
    (item: Row) => LowQuantity(Get(item, "quantite"))
  }

  /** `(stockRes.data || []).filter(item => item.quantite < 20).length`. */
  function LowStockCount(stock: Option<seq<Row>>): (n: nat)
    ensures stock.None? ==> n == 0
    ensures stock.Some? ==> n <= |stock.value|
    ensures stock.Some? ==> n == |Filter(stock.value, LowRowPredicate())|
  {
    var rows := stock.GetOr([]);
    FilterSpec(rows, LowRowPredicate());
    Count(rows, LowRowPredicate())
  }

  /** The count is positive exactly when some stock row is low. */
  lemma {:induction false} CountPositiveIff(rows: seq<Row>, p: Row -> bool)
    ensures Count(rows, p) > 0 <==> exists i :: 0 <= i < |rows| && p(rows[i])
  {
    if rows != [] {
      CountPositiveIff(rows[1..], p);
      if p(rows[0]) {
        assert 0 <= 0 < |rows| && p(rows[0]);
      } else {
        forall i | 0 <= i < |rows| && p(rows[i]) ensures 0 <= i - 1 < |rows[1..]| && p(rows[1..][i - 1]) {
        }
        forall i | 0 <= i < |rows[1..]| && p(rows[1..][i]) ensures 0 <= i + 1 < |rows| && p(rows[i + 1]) {
        }
      }
    }
  }

  /** The row counted as low is the row the stock table marks: the
      dashboard, the table browser and the palette share one threshold. */
  lemma LowRowIsMarked(item: Row)
    ensures LowRowPredicate()(item) <==> DataTable.LowStockMarker("stock", "quantite", Get(item, "quantite"))
  {
  }

  /** A single stock row holding the number `n` is counted exactly when
      `n < 20`; at the threshold, of a row holding 19 and a row holding 20,
      only the first is counted. */
  lemma LowStockBoundary(n: real)
    ensures LowStockCount(Some([[Field("quantite", Num(n))]])) == (if n < 20.0 then 1 else 0)
    ensures LowStockCount(Some([[Field("quantite", Num(19.0))], [Field("quantite", Num(20.0))]])) == 1
  {
    var one := [[Field("quantite", Num(n))]];
    LowQuantityOfNumber(n);
    assert LowRowPredicate()(one[0]) <==> n < 20.0;
    assert one[1..] == [];
    var rows := [[Field("quantite", Num(19.0))], [Field("quantite", Num(20.0))]];
    assert LowRowPredicate()(rows[0]);
    assert !LowRowPredicate()(rows[1]);
    assert rows[1..][1..] == [];
  }

  /** `fetchStats`: each count or 0 when it is missing, and the low-stock
      count; a fetch that throws leaves the initial figures. */
  function FetchStats(answers: Option<Responses>): (s: Stats)
    ensures answers.None? ==> s == InitialStats
    ensures answers.Some? && Truthy(answers.value.medCount) ==> s.totalMeds == answers.value.medCount
    ensures answers.Some? && !Truthy(answers.value.medCount) ==> s.totalMeds == Num(0.0)
    ensures answers.Some? && Truthy(answers.value.patientCount) ==> s.totalPatients == answers.value.patientCount
    ensures answers.Some? && !Truthy(answers.value.patientCount) ==> s.totalPatients == Num(0.0)
    ensures answers.Some? && Truthy(answers.value.exitCount) ==> s.totalExits == answers.value.exitCount
    ensures answers.Some? && !Truthy(answers.value.exitCount) ==> s.totalExits == Num(0.0)
    ensures answers.Some? ==> s.lowStock == LowStockCount(answers.value.stock)
  {
    match answers
    case None => InitialStats
    case Some(a) =>
      Stats(Or(a.medCount, Num(0.0)), Or(a.patientCount, Num(0.0)), Or(a.exitCount, Num(0.0)),
            LowStockCount(a.stock))
  }

  /** The status summary's alert branch: `stats.lowStock > 0`. */
  predicate AlertShown(s: Stats) {
    s.lowStock > 0
  }

  /** The alert shows exactly when the stock answer holds a low row; with no
      stock answer it never shows. */
  lemma AlertIff(answers: Responses)
    ensures AlertShown(FetchStats(Some(answers))) <==>
      (answers.stock.Some? && exists i :: 0 <= i < |answers.stock.value| && LowQuantity(Get(answers.stock.value[i], "quantite")))
    ensures answers.stock.None? ==> !AlertShown(FetchStats(Some(answers)))
  {
    if answers.stock.Some? {
      var rows := answers.stock.value;
      CountPositiveIff(rows, LowRowPredicate());
    }
  }

  /** The tables the quick actions open. */
  const QuickActionTables: seq<string> := ["patients", "stock", "sorties", "timesheet"]

  /** Every quick action opens the table browser on its table. */
  lemma QuickActionsBrowse(i: nat)
    requires i < |QuickActionTables|
    ensures Shell.Route(QuickActionTables[i]) == Shell.TableBrowser(QuickActionTables[i])
  {
  }
}
