/** The requisition list: its three status tabs, the search over them, the
    status and flag switches that write one field of one cached row, and the
    tolerant reading of a requisition's line items. */
module Requisitions {
  import opened Wrappers
  import opened Seqs
  import opened JsText
  import opened JsValue
  import opened Json

  /** The `etat` of a requisition. */
  datatype Status = Pending | Approved | Rejected

  /** The text stored in the `etat` column, which is also the tab key. */
  function Key(s: Status): string {
    match s
    case Pending => "En Attente"
    case Approved => "Approuvé"
    case Rejected => "Rejeté"
  }

  /** The tabs in display order. */
  const Tabs: seq<Status> := [Pending, Approved, Rejected]

  /** The two yes/no columns shown for an approved requisition. */
  datatype Flag = Proforma | Livraison

  function FlagKey(f: Flag): string {
    match f
    case Proforma => "proforma"
    case Livraison => "livraison"
  }

  /** `item.etat === key`: the row belongs to tab `s`. */
  predicate InTab(row: Row, s: Status) {
    StrictEquals(Get(row, "etat"), Str(Key(s)))
  }

  /** The tab a row is filed under, if any. */
  function StatusOf(row: Row): (r: Option<Status>)
    ensures forall s :: InTab(row, s) <==> r == Some(s)
  {
    if InTab(row, Pending) then Some(Pending)
    else if InTab(row, Approved) then Some(Approved)
    else if InTab(row, Rejected) then Some(Rejected)
    else None
  }

  // ------------------------------------------------------------ line items

  /** `parseArticles`: never throws. Falsy input gives `[]`; text is read as
      JSON and gives `[]` when that fails; an array is kept as it is; any other
      value becomes a one-item list. */
  function ParseArticles(article: Value): (r: Value)
    ensures !Truthy(article) ==> r == Arr([])
    ensures article.Arr? ==> r == article
    ensures Truthy(article) && !article.Str? && !article.Arr? ==> r == Arr([article])
    ensures article.Str? && Parse(article.s).None? ==> r == Arr([])
    ensures article.Str? && Truthy(article) && Parse(article.s).Some? ==> r == Parse(article.s).value
  {
    if !Truthy(article) then Arr([])
    else if article.Str? then
      match Parse(article.s)
      case None => Arr([])
      case Some(v) => v
    else if article.Arr? then article
    else Arr([article])
  }

  // ------------------------------------------------------- local row updates

  /** `rows.map(item => item.id === id ? { ...item, [k]: v } : item)`. */
  function UpdateWhere(data: seq<Row>, id: Value, k: string, v: Value): (r: seq<Row>)
    ensures |r| == |data|
    ensures forall i :: 0 <= i < |data| && StrictEquals(Get(data[i], "id"), id) ==>
      Get(r[i], k) == v && Has(r[i], k)
    ensures forall i :: 0 <= i < |data| && !StrictEquals(Get(data[i], "id"), id) ==> r[i] == data[i]
    ensures forall i, k' :: 0 <= i < |data| && k' != k ==>
      Get(r[i], k') == Get(data[i], k') && (Has(r[i], k') <==> Has(data[i], k'))
  {
    seq(|data|, i requires 0 <= i < |data| =>
      if StrictEquals(Get(data[i], "id"), id) then Set(data[i], k, v) else data[i])
  }

  /** `selectedReq?.id`: `undefined` when no requisition is open. */
  function SelectedId(selected: Option<Row>): Value {
    match selected
    case None => Undefined
    case Some(r) => Get(r, "id")
  }

  /** `if (selectedReq?.id === id) setSelectedReq(prev => ({ ...prev, [k]: v }))`;
      spreading `null` gives an object with only `k`. */
  function UpdateSelected(selected: Option<Row>, id: Value, k: string, v: Value): (r: Option<Row>)
    ensures StrictEquals(SelectedId(selected), id) ==> r.Some? && Get(r.value, k) == v
    ensures !StrictEquals(SelectedId(selected), id) ==> r == selected
    ensures selected.Some? && r.Some? ==> forall k' :: k' != k ==> Get(r.value, k') == Get(selected.value, k')
  {
    if StrictEquals(SelectedId(selected), id) then Some(Set(selected.GetOr([]), k, v)) else selected
  }

  /** What the list screen holds: the fetched rows and the open requisition. */
  datatype View = View(data: seq<Row>, selected: Option<Row>)

  /** A write's effect: the new screen state and the alert shown, if any. */
  datatype Outcome = Outcome(view: View, alert: Option<string>)

  /** A remote update of column `k` to `v` for row `id`, then the same change in
      the local cache. `fault` is the error the backend reports, if any: then
      nothing local changes and an alert is shown. */
  function Write(view: View, id: Value, k: string, v: Value, fault: Option<string>): (o: Outcome)
    ensures fault.Some? ==> o == Outcome(view, Some("Erreur: " + fault.value))
    ensures fault.None? ==> o.alert.None?
    ensures fault.None? ==> o.view.data == UpdateWhere(view.data, id, k, v)
    ensures fault.None? ==> o.view.selected == UpdateSelected(view.selected, id, k, v)
  {
    match fault
    case Some(msg) => Outcome(view, Some("Erreur: " + msg))
    case None => Outcome(View(UpdateWhere(view.data, id, k, v), UpdateSelected(view.selected, id, k, v)), None)
  }

  /** `handleUpdateEtat(id, newEtat)`. Any status may follow any status. */
  function UpdateEtat(view: View, id: Value, s: Status, fault: Option<string>): (o: Outcome)
    ensures fault.Some? ==> o.view == view && o.alert.Some?
    ensures fault.None? ==> |o.view.data| == |view.data| && o.alert.None?
    ensures fault.None? ==> forall i :: 0 <= i < |view.data| && StrictEquals(Get(view.data[i], "id"), id) ==>
      StatusOf(o.view.data[i]) == Some(s)
    ensures fault.None? ==> forall i :: 0 <= i < |view.data| && !StrictEquals(Get(view.data[i], "id"), id) ==>
      o.view.data[i] == view.data[i]
  {
    Write(view, id, "etat", Str(Key(s)), fault)
  }

  /** `handleToggle(id, field, currentValue)`: writes `!currentValue`. */
  function Toggle(view: View, id: Value, f: Flag, current: Value, fault: Option<string>): (o: Outcome)
    ensures fault.Some? ==> o.view == view && o.alert.Some?
    ensures fault.None? ==> |o.view.data| == |view.data| && o.alert.None?
    ensures fault.None? ==> forall i :: 0 <= i < |view.data| && StrictEquals(Get(view.data[i], "id"), id) ==>
      Get(o.view.data[i], FlagKey(f)) == Bool(!Truthy(current))
    ensures fault.None? ==> forall i, k :: 0 <= i < |view.data| && k != FlagKey(f) ==>
      Get(o.view.data[i], k) == Get(view.data[i], k)
    ensures fault.None? ==> forall i :: 0 <= i < |view.data| && !StrictEquals(Get(view.data[i], "id"), id) ==>
      o.view.data[i] == view.data[i]
    ensures fault.None? ==> o.view.selected == UpdateSelected(view.selected, id, FlagKey(f), Bool(!Truthy(current)))
  {
    Write(view, id, FlagKey(f), Bool(!Truthy(current)), fault)
  }

  /** Changing the status never touches the two flags, so they survive a
      requisition leaving and re-entering the approved tab. */
  lemma EtatKeepsFlags(view: View, id: Value, s: Status, f: Flag, fault: Option<string>)
    ensures var o := UpdateEtat(view, id, s, fault);
      |o.view.data| == |view.data| &&
      (forall i :: 0 <= i < |view.data| ==> Get(o.view.data[i], FlagKey(f)) == Get(view.data[i], FlagKey(f))) &&
      (view.selected.Some? ==>
        (o.view.selected.Some? && Get(o.view.selected.value, FlagKey(f)) == Get(view.selected.value, FlagKey(f))))
  {
  }

  /** Toggling a flag twice, each time with the value then on screen, puts
      every row and the open requisition back as they were. */
  lemma ToggleTwice(view: View, id: Value, f: Flag, b: bool)
    requires forall i :: 0 <= i < |view.data| && StrictEquals(Get(view.data[i], "id"), id) ==>
      Get(view.data[i], FlagKey(f)) == Bool(b)
    requires StrictEquals(SelectedId(view.selected), id) ==>
      view.selected.Some? && Get(view.selected.value, FlagKey(f)) == Bool(b)
    ensures var once := Toggle(view, id, f, Bool(b), None).view;
      Toggle(once, id, f, Bool(!b), None).view == view
  {
    UpdateWhereTwice(view.data, id, FlagKey(f), Bool(b), Bool(!b));
    UpdateSelectedTwice(view.selected, id, FlagKey(f), Bool(b), Bool(!b));
  }

  /** A flag not yet set (`null` or absent, as on a freshly submitted
      requisition) is not restored by two toggles: the first writes `true`,
      the second `false`, so the matching rows and the open requisition end
      at `false`, and a row that held `null` differs from before. */
  lemma ToggleUnsetTwice(view: View, id: Value, f: Flag, current: Value)
    requires !Truthy(current)
    ensures var twice := Toggle(Toggle(view, id, f, current, None).view, id, f, Bool(true), None).view;
      |twice.data| == |view.data| &&
      (forall i :: 0 <= i < |view.data| && StrictEquals(Get(view.data[i], "id"), id) ==>
        Get(twice.data[i], FlagKey(f)) == Bool(false) &&
        (Get(view.data[i], FlagKey(f)).Null? ==> twice.data[i] != view.data[i])) &&
      (forall i :: 0 <= i < |view.data| && !StrictEquals(Get(view.data[i], "id"), id) ==> twice.data[i] == view.data[i]) &&
      (StrictEquals(SelectedId(view.selected), id) ==> twice.selected.Some? && Get(twice.selected.value, FlagKey(f)) == Bool(false))
  {
    var k := FlagKey(f);
    var once := Toggle(view, id, f, current, None).view;
    var twice := Toggle(once, id, f, Bool(true), None).view;
    assert once.data == UpdateWhere(view.data, id, k, Bool(true));
    assert twice.data == UpdateWhere(once.data, id, k, Bool(false));
    forall i | 0 <= i < |view.data|
      ensures Get(once.data[i], "id") == Get(view.data[i], "id")
    {
    }
    if StrictEquals(SelectedId(view.selected), id) {
      assert SelectedId(once.selected) == SelectedId(view.selected);
    }
  }

  /** Writing `v` and then the value the matching rows held before restores
      the rows. */
  lemma UpdateWhereTwice(data: seq<Row>, id: Value, k: string, before: Value, v: Value)
    requires k != "id" && !before.Undefined?
    requires forall i :: 0 <= i < |data| && StrictEquals(Get(data[i], "id"), id) ==> Get(data[i], k) == before
    ensures UpdateWhere(UpdateWhere(data, id, k, v), id, k, before) == data
  {
    var once := UpdateWhere(data, id, k, v);
    var twice := UpdateWhere(once, id, k, before);
    forall i | 0 <= i < |data| ensures twice[i] == data[i] {
      var r := data[i];
      assert Get(once[i], "id") == Get(r, "id");
      if StrictEquals(Get(r, "id"), id) {
        SetTwice(r, k, v, before);
        SetSame(r, k);
      }
    }
  }

  /** The same for the open requisition. */
  lemma UpdateSelectedTwice(selected: Option<Row>, id: Value, k: string, before: Value, v: Value)
    requires k != "id" && !before.Undefined?
    requires StrictEquals(SelectedId(selected), id) ==> selected.Some? && Get(selected.value, k) == before
    ensures UpdateSelected(UpdateSelected(selected, id, k, v), id, k, before) == selected
  {
    if StrictEquals(SelectedId(selected), id) {
      var r := selected.value;
      SetTwice(r, k, v, before);
      SetSame(r, k);
    }
  }

  // ------------------------------------------------------------ tab and search

  function TabPredicate(s: Status): Row -> bool {
    row => InTab(row, s)
  }

  /** One row against a non-empty, lower-cased search term `q`: the personnel
      name, the id and the JSON of the line items are searched. `None` when the
      personnel value is truthy but not a string: `.toLowerCase()` then throws. */
  function SearchHit(row: Row, q: string): Option<bool> {
    var personnel := Or(Get(row, "personnel"), Str(""));
    if !personnel.Str? then None
    else Some(Includes(ToLower(personnel.s), q)
      || Includes(ToStr(Get(row, "id")), q)
      || Includes(ToLower(Stringify(Or(Get(row, "article"), Str(""))).GetOr("")), q))
  }

  function HitPredicate(q: string): Row -> bool {
    row => SearchHit(row, q) == Some(true)
  }

  /** The cards shown: rows of the active tab, then those matching the search
      term. `None` when the search throws, which breaks the render. */
  function Filtered(data: seq<Row>, tab: Status, term: string): (r: Option<seq<Row>>)
    ensures term == "" ==> r == Some(Filter(data, TabPredicate(tab)))
    ensures r.None? <==>
      (term != "" && exists i :: 0 <= i < |data| && InTab(data[i], tab) && SearchHit(data[i], ToLower(term)).None?)
  {
    var inTab := Filter(data, TabPredicate(tab));
    FilterSpec(data, TabPredicate(tab));
    if term == "" then Some(inTab)
    else
      var q := ToLower(term);
      if exists i :: 0 <= i < |inTab| && SearchHit(inTab[i], q).None? then
        None
      else
        assert !exists i :: 0 <= i < |data| && InTab(data[i], tab) && SearchHit(data[i], q).None? by {
          forall i | 0 <= i < |data| && InTab(data[i], tab) ensures SearchHit(data[i], q).Some? {
            assert data[i] in inTab;
          }
        }
        Some(Filter(inTab, HitPredicate(q)))
  }

  /** The cards shown are, in their fetched order, exactly the rows of the tab
      that match the search. */
  lemma FilteredIsSubsequence(data: seq<Row>, tab: Status, term: string)
    requires Filtered(data, tab, term).Some?
    ensures term != "" ==>
      (Filtered(data, tab, term).value ==
        Filter(data, row => InTab(row, tab) && SearchHit(row, ToLower(term)) == Some(true)))
    ensures SubsequenceOf(Filtered(data, tab, term).value, data)
    ensures forall row :: row in Filtered(data, tab, term).value ==> InTab(row, tab)
  {
    var r := Filtered(data, tab, term).value;
    if term == "" {
      FilterSpec(data, TabPredicate(tab));
    } else {
      var both := row => InTab(row, tab) && SearchHit(row, ToLower(term)) == Some(true);
      FilterFilter(data, TabPredicate(tab), HitPredicate(ToLower(term)), both);
      FilterSpec(data, both);
    }
  }

  /** `tabCounts[key]`: the rows whose status is exactly that tab. */
  function TabCount(data: seq<Row>, s: Status): (n: nat)
    ensures n == |Filter(data, TabPredicate(s))|
  {
    FilterSpec(data, TabPredicate(s));
    Count(data, TabPredicate(s))
  }

  /** Rows with a missing or unknown status are in no tab, so the three counts
      add up to the total less those rows. */
  lemma {:induction false} TabCountsSum(data: seq<Row>)
    ensures TabCount(data, Pending) + TabCount(data, Approved) + TabCount(data, Rejected)
      == |data| - Count(data, row => StatusOf(row).None?)
    ensures TabCount(data, Pending) + TabCount(data, Approved) + TabCount(data, Rejected) <= |data|
  {
    if data != [] {
      TabCountsSum(data[1..]);
      var r := data[0];
      assert StatusOf(r).None? || StatusOf(r) == Some(Pending) || StatusOf(r) == Some(Approved) || StatusOf(r) == Some(Rejected);
    }
  }

  /** `etatColors[etat]?.bg || etatColors['En Attente'].bg`: the colours are
      looked up by the status' string form, falling back to pending. */
  function BadgeStatus(etat: Value): (s: Status)
    ensures forall t :: ToStr(etat) == Key(t) ==> s == t
    ensures (forall t :: ToStr(etat) != Key(t)) ==> s == Pending
  {
    var k := ToStr(etat);
    if k == Key(Approved) then Approved
    else if k == Key(Rejected) then Rejected
    else Pending
  }

  /** A filed row shows its own colours; a row in no tab whose status is text
      shows the pending colours. */
  lemma BadgeOfRow(row: Row)
    ensures StatusOf(row).Some? ==> BadgeStatus(Get(row, "etat")) == StatusOf(row).value
    ensures StatusOf(row).None? && Get(row, "etat").Str? ==> BadgeStatus(Get(row, "etat")) == Pending
  {
  }
}
