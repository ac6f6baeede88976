/** The command palette: quick navigation, the search over table names and
    over the workspace's record tables, the placeholder shown when nothing
    matches, keyboard selection, grouping by category and table labels. The
    backend's answers to the per-table queries are parameters. */
module CommandPalette {
  import opened Wrappers
  import opened Seqs
  import opened JsText
  import opened JsValue
  import opened Workspaces
  import opened Inventory

  /** What an entry stands for. Record entries keep the row they were built
      from; their titles and subtitles are display text. */
  datatype Kind =
    | Navigation(title: string)
    | Record(row: Row)
    | StockRecord(row: Row, low: bool)
    | NoResult(term: string)

  /** A secondary button: its label and the table it opens (`_table`). */
  datatype Button = Button(caption: string, table: string)

  /** One entry of the result list. `action` is the table a click opens;
      `None` is the `null` action of the placeholder. */
  datatype Hit = Hit(kind: Kind, category: string, action: Option<string>, buttons: seq<Button>)

  /** `currentWorkspace?.tables || []`. */
  function WorkspaceTables(ws: Option<Workspace>): seq<string> {
    if ws.Some? then ws.value.tables else []
  }

  /** `currentWorkspace?.inactiveTables || []`. */
  function InactiveTables(ws: Option<Workspace>): seq<string> {
    if ws.Some? then ws.value.inactiveTables else []
  }

  /** `has(t)`: the table belongs to the workspace. */
  predicate InWorkspace(ws: Option<Workspace>, t: string) {
    t in WorkspaceTables(ws)
  }

  // ---------------------------------------------------------------- labels

  /** The fixed display name of `t`, if it has one (`labels[table]`). */
  function LabelOf(t: string): (l: Option<string>)
    ensures l.Some? ==> l.value != []
  {
    match t
    case "medicaments" => Some("Médicaments")
    case "stock" => Some("Stock")
    case "patients" => Some("Patients")
    case "personnel" => Some("Personnel")
    case "timesheet" => Some("Timesheet")
    case "sorties" => Some("Sorties")
    case "requisition" => Some("Réquisitions")
    case "ordonnances" => Some("Ordonnances")
    case "rapport_temps" => Some("Rapport de temps")
    case "contrats" => Some("Contrats")
    case "conges" => Some("Congés")
    case "evaluations" => Some("Évaluations")
    case "formations" => Some("Formations")
    case "decaissement" => Some("Décaissement")
    case "achats" => Some("Achats")
    case "paies" => Some("Paies")
    case _ => None
  }

  /** `formatTableName`: the fixed label, or else the name with its first
      character upper-cased. */
  function FormatTableName(t: string): (r: string)
    ensures LabelOf(t).Some? ==> r == LabelOf(t).value
    ensures LabelOf(t).None? ==> |r| == |t| && (t != [] ==> r[0] == UpperChar(t[0]) && r[1..] == t[1..])
  {
    match LabelOf(t)
    case Some(l) => l
    case None => if t == [] then [] else [UpperChar(t[0])] + t[1..]
  }

  /** Every table of every configured workspace has a fixed label, so the
      upper-casing fallback only serves names from elsewhere. */
  lemma WorkspaceTablesLabelled()
    ensures forall i :: 0 <= i < |Hcj.tables| ==> LabelOf(Hcj.tables[i]).Some?
    ensures forall i :: 0 <= i < |Rh.tables| ==> LabelOf(Rh.tables[i]).Some?
    ensures forall i :: 0 <= i < |Abc.tables| ==> LabelOf(Abc.tables[i]).Some?
  {
  }

  /** A non-empty table name never formats to empty text. */
  lemma FormatNonEmpty(t: string)
    requires t != []
    ensures FormatTableName(t) != []
  {
  }

  // ------------------------------------------------------------ navigation

  /** A navigation entry for table `t`. */
  function NavHit(t: string, category: string): Hit {
    Hit(Navigation(FormatTableName(t)), category, Some(t), [])
  }

  function NavHits(tables: seq<string>, category: string): (r: seq<Hit>)
    ensures |r| == |tables|
    ensures forall i :: 0 <= i < |tables| ==> r[i] == NavHit(tables[i], category)
  {
    seq(|tables|, i requires 0 <= i < |tables| => NavHit(tables[i], category))
  }

  function ActivePredicate(ws: Option<Workspace>): string -> bool {
    t => t !in InactiveTables(ws)
  }

  /** The usable tables of the workspace, in workspace order. */
  function ActiveTables(ws: Option<Workspace>): (ts: seq<string>)
    ensures SubsequenceOf(ts, WorkspaceTables(ws))
    ensures forall t :: t in ts <==> t in WorkspaceTables(ws) && t !in InactiveTables(ws)
  {
    FilterSpec(WorkspaceTables(ws), ActivePredicate(ws));
    Filter(WorkspaceTables(ws), ActivePredicate(ws))
  }

  /** `getQuickNav`: one entry per usable table of the workspace. */
  function QuickNav(ws: Option<Workspace>): (r: seq<Hit>)
    ensures |r| == |ActiveTables(ws)|
    ensures forall i :: 0 <= i < |r| ==> r[i] == NavHit(ActiveTables(ws)[i], "Navigation rapide")
  {
    NavHits(ActiveTables(ws), "Navigation rapide")
  }

  function TablePredicate(ws: Option<Workspace>, term: string): string -> bool {
    t => Includes(ToLower(t), ToLower(term)) && t !in InactiveTables(ws)
  }

  /** `matchedTables`: the usable workspace tables whose name contains the
      term, ignoring case, in workspace order. */
  function MatchedTables(ws: Option<Workspace>, term: string): (ts: seq<string>)
    ensures SubsequenceOf(ts, WorkspaceTables(ws))
    ensures forall t :: t in ts <==>
      (t in WorkspaceTables(ws) && t !in InactiveTables(ws) && Includes(ToLower(t), ToLower(term)))
  {
    FilterSpec(WorkspaceTables(ws), TablePredicate(ws, term));
    Filter(WorkspaceTables(ws), TablePredicate(ws, term))
  }

  /** An empty term (what a query of blanks trims to) matches every usable
      table. */
  lemma EmptyTermMatchesAll(ws: Option<Workspace>)
    ensures MatchedTables(ws, "") == ActiveTables(ws)
  {
    var tables := WorkspaceTables(ws);
    forall i | 0 <= i < |tables| ensures TablePredicate(ws, "")(tables[i]) == ActivePredicate(ws)(tables[i]) {
      IncludesIff(ToLower(tables[i]), "");
      assert OccursAt(ToLower(tables[i]), "", 0);
    }
    FilterCongruent(tables, TablePredicate(ws, ""), ActivePredicate(ws));
  }

  // --------------------------------------------------------------- records

  /** The record tables searched, in the order they are searched. */
  datatype Source = Medicaments | Patients | Personnel | Requisitions | Sorties | Stock | Timesheets

  const Sources: seq<Source> := [Medicaments, Patients, Personnel, Requisitions, Sorties, Stock, Timesheets]

  /** The table a source searches and its entries open. */
  function SourceTable(k: Source): string {
    match k
    case Medicaments => "medicaments"
    case Patients => "patients"
    case Personnel => "personnel"
    case Requisitions => "requisition"
    case Sorties => "sorties"
    case Stock => "stock"
    case Timesheets => "timesheet"
  }

  /** The category a source's entries are grouped under. */
  function SourceCategory(k: Source): string {
    match k
    case Medicaments => "Médicaments"
    case Patients => "Patients"
    case Personnel => "Personnel"
    case Requisitions => "Réquisitions"
    case Sorties => "Sorties"
    case Stock => "Stock"
    case Timesheets => "Timesheet"
  }

  /** The secondary buttons offered on a source's entries, before filtering. */
  function SourceButtons(k: Source): seq<Button> {
    match k
    case Medicaments => [Button("Stock", "stock"), Button("Sorties", "sorties"), Button("Voir fiche", "medicaments")]
    case Patients => [Button("Dossier", "patients"), Button("Sorties", "sorties")]
    case Personnel => [Button("Profil", "personnel"), Button("Timesheet", "timesheet")]
    case Requisitions => [Button("Voir", "requisition")]
    case Sorties => [Button("Détail", "sorties")]
    case Stock => [Button("Stock", "stock"), Button("Médicament", "medicaments")]
    case Timesheets => []
  }

  function ButtonPredicate(ws: Option<Workspace>): Button -> bool {
    (b: Button) => b.table == "" || InWorkspace(ws, b.table)
  }

  /** `filterActions`: the buttons with no target table or with one in the
      workspace, in order. */
  function FilterActions(ws: Option<Workspace>, buttons: seq<Button>): (r: seq<Button>)
    ensures SubsequenceOf(r, buttons)
    ensures forall b :: b in r <==> b in buttons && (b.table == "" || InWorkspace(ws, b.table))
  {
    FilterSpec(buttons, ButtonPredicate(ws));
    Filter(buttons, ButtonPredicate(ws))
  }

  /** `x?.substring(0, 8)` throws a TypeError on a value that is neither
      nullish nor text. */
  predicate SubstringThrows(v: Value) {
    !v.Null? && !v.Undefined? && !v.Str?
  }

  /** Building an entry's title throws: requisition titles cut the id;
      exit and timesheet titles cut it when there is no date or activity. */
  predicate BuildThrows(k: Source, row: Row) {
    match k
    case Requisitions => SubstringThrows(Get(row, "id"))
    case Sorties => !Truthy(Get(row, "date_sortie")) && SubstringThrows(Get(row, "id"))
    case Timesheets => !Truthy(Get(row, "activite")) && SubstringThrows(Get(row, "id"))
    case _ => false
  }

  /** The entry built for a returned row; stock entries are flagged low by
      the shared stock rule. */
  function MakeHit(ws: Option<Workspace>, k: Source, row: Row): Hit {
    var kind := if k == Stock then StockRecord(row, LowQuantity(Get(row, "quantite"))) else Record(row);
    var buttons := if k == Timesheets then [] else FilterActions(ws, SourceButtons(k));
    Hit(kind, SourceCategory(k), Some(SourceTable(k)), buttons)
  }

  /** The entries a section added and whether it threw. */
  datatype Section = Section(hits: seq<Hit>, thrown: bool)

  /** `rows.forEach(r => allResults.push(...))`: one entry per row in order,
      stopping at the first row whose entry cannot be built. */
  function Pushes(ws: Option<Workspace>, k: Source, rows: seq<Row>): (s: Section)
    ensures |s.hits| <= |rows|
    ensures forall j :: 0 <= j < |s.hits| ==> s.hits[j] == MakeHit(ws, k, rows[j]) && !BuildThrows(k, rows[j])
    ensures s.thrown <==> exists i :: 0 <= i < |rows| && BuildThrows(k, rows[i])
    ensures !s.thrown ==> |s.hits| == |rows|
    ensures s.thrown ==> BuildThrows(k, rows[|s.hits|])
  {
    if rows == [] then Section([], false)
    else if BuildThrows(k, rows[0]) then Section([], true)
    else
      var rest := Pushes(ws, k, rows[1..]);
      ThrowsInTail(k, rows);
      Section([MakeHit(ws, k, rows[0])] + rest.hits, rest.thrown)
  }

  /** Past a first row that builds, a throwing row is one of the rest. */
  lemma ThrowsInTail(k: Source, rows: seq<Row>)
    requires rows != [] && !BuildThrows(k, rows[0])
    ensures forall i :: 1 <= i < |rows| ==> rows[i] == rows[1..][i - 1]
    ensures (exists i :: 0 <= i < |rows| && BuildThrows(k, rows[i])) <==>
      (exists i :: 0 <= i < |rows[1..]| && BuildThrows(k, rows[1..][i]))
  {
    assert forall i :: 1 <= i < |rows| ==> rows[i] == rows[1..][i - 1];
    if exists i :: 0 <= i < |rows| && BuildThrows(k, rows[i]) {
      var i :| 0 <= i < |rows| && BuildThrows(k, rows[i]);
      assert BuildThrows(k, rows[1..][i - 1]);
    }
    if exists i :: 0 <= i < |rows[1..]| && BuildThrows(k, rows[1..][i]) {
      var i :| 0 <= i < |rows[1..]| && BuildThrows(k, rows[1..][i]);
      assert BuildThrows(k, rows[i + 1]);
    }
  }

  /** `s.medicaments?.Nom?.toLowerCase().includes(term.toLowerCase())`:
      `None` when it throws, on a medication name that is neither nullish
      nor text. */
  function StockNameMatches(row: Row, term: string): Option<bool> {
    var m := Get(row, "medicaments");
    if m.Null? || m.Undefined? then Some(false)
    else
      var nom := Property(m, "Nom");
      if nom.Null? || nom.Undefined? then Some(false)
      else if nom.Str? then Some(Includes(ToLower(nom.s), ToLower(term)))
      else None
  }

  function StockPredicate(term: string): Row -> bool {
    row => StockNameMatches(row, term) == Some(true)
  }

  /** `rows.slice(0, n)`. */
  function Take<T>(s: seq<T>, n: nat): (r: seq<T>)
    ensures |r| <= n && |r| <= |s|
    ensures r == s[..|r|]
    ensures |s| <= n ==> r == s
    ensures |s| > n ==> |r| == n
  {
    if |s| <= n then s else s[..n]
  }

  /** The stock section: the whole filter runs first, so a throwing row
      leaves no stock entry at all; otherwise the first five matching rows. */
  function StockSection(ws: Option<Workspace>, term: string, rows: seq<Row>): (s: Section)
    ensures s.thrown <==> exists i :: 0 <= i < |rows| && StockNameMatches(rows[i], term).None?
    ensures s.thrown ==> s.hits == []
    ensures |s.hits| <= 5
    ensures !s.thrown ==> |s.hits| == if |Filter(rows, StockPredicate(term))| < 5 then |Filter(rows, StockPredicate(term))| else 5
    ensures !s.thrown ==> forall i :: 0 <= i < |s.hits| ==>
      s.hits[i].kind.StockRecord? && s.hits[i].kind.row == Filter(rows, StockPredicate(term))[i] &&
      s.hits[i].kind.low == LowQuantity(Get(s.hits[i].kind.row, "quantite"))
  {
    if exists i :: 0 <= i < |rows| && StockNameMatches(rows[i], term).None? then Section([], true)
    else
      var matched := Take(Filter(rows, StockPredicate(term)), 5);
      Section(seq(|matched|, i requires 0 <= i < |matched| => MakeHit(ws, Stock, matched[i])), false)
  }

  /** The backend's answers, one per source: `None` when the query failed
      (its `data` is then `null`). */
  datatype Backend = Backend(
    medicaments: Option<seq<Row>>, patients: Option<seq<Row>>, personnel: Option<seq<Row>>,
    requisitions: Option<seq<Row>>, sorties: Option<seq<Row>>, stock: Option<seq<Row>>,
    timesheets: Option<seq<Row>>)

  function Answer(b: Backend, k: Source): seq<Row> {
    var rows := match k
      case Medicaments => b.medicaments
      case Patients => b.patients
      case Personnel => b.personnel
      case Requisitions => b.requisitions
      case Sorties => b.sorties
      case Stock => b.stock
      case Timesheets => b.timesheets;
    rows.GetOr([])
  }

  /** One source's section: skipped unless its table is in the workspace. */
  function RunSection(ws: Option<Workspace>, term: string, b: Backend, k: Source): (s: Section)
    ensures !InWorkspace(ws, SourceTable(k)) ==> s == Section([], false)
    ensures forall h :: h in s.hits ==> h.category == SourceCategory(k)
  {
    if !InWorkspace(ws, SourceTable(k)) then Section([], false)
    else if k == Stock then StockSection(ws, term, Answer(b, k))
    else Pushes(ws, k, Answer(b, k))
  }

  /** The sections in order; a section that throws ends the search, keeping
      the entries added so far. */
  function RunFrom(ws: Option<Workspace>, term: string, b: Backend, ks: seq<Source>): seq<Hit> {
    if ks == [] then []
    else
      var s := RunSection(ws, term, b, ks[0]);
      if s.thrown then s.hits else s.hits + RunFrom(ws, term, b, ks[1..])
  }

  /** The placeholder shown when a search finds nothing. */
  function EmptyHit(term: string): Hit {
    Hit(NoResult(term), "", None, [])
  }

  /** `searchAll(q)`. */
  /** The navigation matches followed by the record sections, before the
      empty-result sentinel is considered. */
  function Found(ws: Option<Workspace>, term: string, b: Backend): seq<Hit> {
    NavHits(MatchedTables(ws, term), "Navigation") + RunFrom(ws, term, b, Sources)
  }

  function SearchAll(q: string, ws: Option<Workspace>, b: Backend): (r: seq<Hit>)
    ensures q == [] || Utf16Length(q) < 2 ==> r == QuickNav(ws)
    ensures q != [] && Utf16Length(q) >= 2 ==> r != []
    ensures q != [] && Utf16Length(q) >= 2 ==>
      (Found(ws, Trim(q), b) == [] ==> r == [EmptyHit(Trim(q))]) &&
      (Found(ws, Trim(q), b) != [] ==> r == Found(ws, Trim(q), b))
  {
    if q == [] || Utf16Length(q) < 2 then QuickNav(ws)
    else
      var term := Trim(q);
      if Found(ws, term, b) == [] then [EmptyHit(term)] else Found(ws, term, b)
  }

  // ---------------------------------------------------------- properties

  /** Every table the palette offers to open, by a click or by a button, is
      a table of the workspace. */
  predicate Scoped(ws: Option<Workspace>, hs: seq<Hit>) {
    forall h :: h in hs ==>
      (h.action.Some? ==> InWorkspace(ws, h.action.value)) &&
      forall bt :: bt in h.buttons ==> bt.table == "" || InWorkspace(ws, bt.table)
  }

  lemma ScopedAppend(ws: Option<Workspace>, a: seq<Hit>, b: seq<Hit>)
    requires Scoped(ws, a) && Scoped(ws, b)
    ensures Scoped(ws, a + b)
  {
  }

  lemma SectionScoped(ws: Option<Workspace>, term: string, b: Backend, k: Source)
    ensures Scoped(ws, RunSection(ws, term, b, k).hits)
  {
    var s := RunSection(ws, term, b, k);
    forall h | h in s.hits
      ensures h.action.Some? ==> InWorkspace(ws, h.action.value)
      ensures forall bt :: bt in h.buttons ==> bt.table == "" || InWorkspace(ws, bt.table)
    {
      var j :| 0 <= j < |s.hits| && s.hits[j] == h;
      if k == Stock {
        var matched := Take(Filter(Answer(b, k), StockPredicate(term)), 5);
        assert h == MakeHit(ws, Stock, matched[j]);
      } else {
        assert h == MakeHit(ws, k, Answer(b, k)[j]);
      }
    }
  }

  lemma {:induction false} RunFromScoped(ws: Option<Workspace>, term: string, b: Backend, ks: seq<Source>)
    ensures Scoped(ws, RunFrom(ws, term, b, ks))
    decreases |ks|
  {
    if ks != [] {
      SectionScoped(ws, term, b, ks[0]);
      RunFromScoped(ws, term, b, ks[1..]);
      var s := RunSection(ws, term, b, ks[0]);
      if !s.thrown {
        ScopedAppend(ws, s.hits, RunFrom(ws, term, b, ks[1..]));
      }
    }
  }

  lemma NavHitsScoped(ws: Option<Workspace>, tables: seq<string>, category: string)
    requires forall t :: t in tables ==> InWorkspace(ws, t)
    ensures Scoped(ws, NavHits(tables, category))
  {
    var nav := NavHits(tables, category);
    forall h | h in nav ensures h.action.Some? && InWorkspace(ws, h.action.value) && h.buttons == [] {
      var j :| 0 <= j < |nav| && nav[j] == h;
      assert tables[j] in tables;
    }
  }

  /** The palette's entries, before or after a search, only ever open tables
      of the current workspace: the table matches come from it, each record
      search runs only for a workspace table, and each button is filtered. */
  lemma SearchScoped(q: string, ws: Option<Workspace>, b: Backend)
    ensures Scoped(ws, SearchAll(q, ws, b))
  {
    if q == [] || Utf16Length(q) < 2 {
      QuickNavScoped(ws);
    } else {
      FoundScoped(ws, Trim(q), b);
      EmptyHitScoped(ws, Trim(q));
    }
  }

  lemma QuickNavScoped(ws: Option<Workspace>)
    ensures Scoped(ws, QuickNav(ws))
  {
    NavHitsScoped(ws, ActiveTables(ws), "Navigation rapide");
  }

  lemma EmptyHitScoped(ws: Option<Workspace>, term: string)
    ensures Scoped(ws, [EmptyHit(term)])
  {
  }

  lemma FoundScoped(ws: Option<Workspace>, term: string, b: Backend)
    ensures Scoped(ws, Found(ws, term, b))
  {
    NavHitsScoped(ws, MatchedTables(ws, term), "Navigation");
    RunFromScoped(ws, term, b, Sources);
    ScopedAppend(ws, NavHits(MatchedTables(ws, term), "Navigation"), RunFrom(ws, term, b, Sources));
  }

  /** What the stock section shows: at most five entries, each for a stock
      row whose medication name contains the term, flagged low exactly when
      its quantity is low. */
  lemma StockHits(ws: Option<Workspace>, term: string, rows: seq<Row>)
    ensures var s := StockSection(ws, term, rows);
      |s.hits| <= 5 &&
      forall h :: h in s.hits ==>
        h.kind.StockRecord? && h.kind.row in rows && StockNameMatches(h.kind.row, term) == Some(true) &&
        (h.kind.low <==> LowQuantity(Get(h.kind.row, "quantite")))
  {
    var s := StockSection(ws, term, rows);
    if !s.thrown {
      var all := Filter(rows, StockPredicate(term));
      FilterSpec(rows, StockPredicate(term));
      forall h | h in s.hits
        ensures h.kind.StockRecord? && h.kind.row in rows && StockNameMatches(h.kind.row, term) == Some(true)
        ensures h.kind.low <==> LowQuantity(Get(h.kind.row, "quantite"))
      {
        var j :| 0 <= j < |s.hits| && s.hits[j] == h;
        assert h.kind.row == all[j];
        assert all[j] in all;
      }
    }
  }

  /** A section that throws ends the search: no later source contributes. */
  lemma {:induction false} ThrowEndsSearch(ws: Option<Workspace>, term: string, b: Backend, ks: seq<Source>, i: nat)
    requires i < |ks| && RunSection(ws, term, b, ks[i]).thrown
    ensures forall h :: h in RunFrom(ws, term, b, ks) ==> exists j :: 0 <= j <= i && h.category == SourceCategory(ks[j])
    decreases |ks|
  {
    var s := RunSection(ws, term, b, ks[0]);
    if i == 0 || s.thrown {
      assert RunFrom(ws, term, b, ks) == s.hits;
      CategoriesOfFirst(s.hits, ks, i);
    } else {
      var rest := RunFrom(ws, term, b, ks[1..]);
      assert RunFrom(ws, term, b, ks) == s.hits + rest;
      assert ks[1..][i - 1] == ks[i];
      ThrowEndsSearch(ws, term, b, ks[1..], i - 1);
      CategoriesAppend(s.hits, rest, ks, i);
    }
  }

  /** Entries of the first source's category come from a source at or
      before `i`. */
  lemma CategoriesOfFirst(hs: seq<Hit>, ks: seq<Source>, i: nat)
    requires i < |ks| && forall h :: h in hs ==> h.category == SourceCategory(ks[0])
    ensures forall h :: h in hs ==> exists j :: 0 <= j <= i && h.category == SourceCategory(ks[j])
  {
    forall h | h in hs ensures exists j :: 0 <= j <= i && h.category == SourceCategory(ks[j]) {
      assert h.category == SourceCategory(ks[0]);
    }
  }

  /** The first source's entries followed by entries of the later sources up
      to `i`. */
  lemma CategoriesAppend(first: seq<Hit>, rest: seq<Hit>, ks: seq<Source>, i: nat)
    requires 0 < i < |ks|
    requires forall h :: h in first ==> h.category == SourceCategory(ks[0])
    requires forall h :: h in rest ==> exists j :: 0 <= j <= i - 1 && h.category == SourceCategory(ks[1..][j])
    ensures forall h :: h in first + rest ==> exists j :: 0 <= j <= i && h.category == SourceCategory(ks[j])
  {
    forall h | h in first + rest ensures exists j :: 0 <= j <= i && h.category == SourceCategory(ks[j]) {
      if h in first {
        assert h.category == SourceCategory(ks[0]);
      } else {
        var j :| 0 <= j <= i - 1 && h.category == SourceCategory(ks[1..][j]);
        assert ks[1..][j] == ks[j + 1];
      }
    }
  }

  // -------------------------------------------------------------- keyboard

  /** What a palette key press leads to. */
  datatype Effect = Stay | Close | Open(table: string)

  /** `executeAction`: an entry with an action opens its table and closes
      the palette; the placeholder does nothing. */
  function Execute(h: Hit): (e: Effect)
    ensures h.action.None? <==> e == Stay
    ensures h.action.Some? ==> e == Open(h.action.value)
  {
    if h.action.Some? then Open(h.action.value) else Stay
  }

  datatype Key = Escape | ArrowDown | ArrowUp | Enter | OtherKey

  /** The palette's key handler on `results` with `index` selected: the new
      index and the effect. ArrowDown on an empty list selects -1. */
  function HandleKey(results: seq<Hit>, index: int, key: Key): (r: (int, Effect))
    ensures key == ArrowDown ==> r.0 == (if index + 1 < |results| - 1 then index + 1 else |results| - 1)
    ensures key == ArrowUp ==> r.0 == (if index - 1 > 0 then index - 1 else 0)
    ensures key != ArrowDown && key != ArrowUp ==> r.0 == index
    ensures key == Enter && 0 <= index < |results| ==> r.1 == Execute(results[index])
    ensures (key == Enter && !(0 <= index < |results|)) || key == ArrowDown || key == ArrowUp || key == OtherKey ==> r.1 == Stay
    ensures key == Escape ==> r.1 == Close
  {
    match key
    case Escape => (index, Close)
    case ArrowDown => (if index + 1 < |results| - 1 then index + 1 else |results| - 1, Stay)
    case ArrowUp => (if index - 1 > 0 then index - 1 else 0, Stay)
    case Enter => (index, if 0 <= index < |results| then Execute(results[index]) else Stay)
    case OtherKey => (index, Stay)
  }

  /** The arrows keep a valid selection valid, and ArrowUp repairs the -1
      that ArrowDown gives on an empty list. Enter on the placeholder does
      nothing. */
  lemma ArrowsKeepSelection(results: seq<Hit>, index: int, term: string)
    ensures 0 <= index < |results| ==>
      0 <= HandleKey(results, index, ArrowDown).0 < |results| && 0 <= HandleKey(results, index, ArrowUp).0 < |results|
    ensures results == [] && index >= -1 ==> HandleKey(results, index, ArrowDown).0 == -1
    ensures HandleKey(results, index, ArrowUp).0 >= 0
    ensures HandleKey([EmptyHit(term)], 0, Enter).1 == Stay
  {
  }

  // -------------------------------------------------------------- grouping

  /** The heading an entry is grouped under: an empty category becomes
      `Autres`. */
  function CategoryOf(h: Hit): string {
    if h.category == "" then "Autres" else h.category
  }

  datatype Group = Group(category: string, items: seq<Hit>)

  function CategoryKeys(gs: seq<Group>): (ks: seq<string>)
    ensures |ks| == |gs|
    ensures forall i :: 0 <= i < |gs| ==> ks[i] == gs[i].category
  {
    seq(|gs|, i requires 0 <= i < |gs| => gs[i].category)
  }

  /** The position of category `c` among the groups, or -1. */
  function GroupIndex(gs: seq<Group>, c: string): (i: int)
    ensures -1 <= i < |gs|
    ensures i >= 0 ==> gs[i].category == c
    ensures i == -1 <==> c !in CategoryKeys(gs)
  {
    if gs == [] then -1
    else if gs[0].category == c then 0
    else
      var i := GroupIndex(gs[1..], c);
      assert CategoryKeys(gs) == [gs[0].category] + CategoryKeys(gs[1..]);
      if i < 0 then -1 else i + 1
  }

  /** One step of the grouping loop: push onto the entry's group, creating
      it at the end the first time its category is seen. */
  function AddToGroups(gs: seq<Group>, h: Hit): seq<Group> {
    var i := GroupIndex(gs, CategoryOf(h));
    if i < 0 then gs + [Group(CategoryOf(h), [h])]
    else gs[i := Group(gs[i].category, gs[i].items + [h])]
  }

  /** `results.forEach(r => grouped[cat].push(r))`, then `Object.entries`. */
  function GroupResults(rs: seq<Hit>): seq<Group>
    decreases |rs|
  {
    if rs == [] then [] else AddToGroups(GroupResults(rs[..|rs| - 1]), rs[|rs| - 1])
  }

  /** The categories in order of first appearance. */
  function Categories(rs: seq<Hit>): seq<string>
    decreases |rs|
  {
    if rs == [] then []
    else
      var cs := Categories(rs[..|rs| - 1]);
      if CategoryOf(rs[|rs| - 1]) in cs then cs else cs + [CategoryOf(rs[|rs| - 1])]
  }

  function InCategory(c: string): Hit -> bool {
    h => CategoryOf(h) == c
  }

  /** The reference reading of the grouping: one group per category in order
      of first appearance, holding exactly that category's entries in their
      original order. */
  predicate GroupedBy(gs: seq<Group>, rs: seq<Hit>) {
    var cs := Categories(rs);
    |gs| == |cs| &&
    forall i :: 0 <= i < |gs| ==> gs[i] == Group(cs[i], Filter(rs, InCategory(cs[i])))
  }

  lemma FilterSnoc(rs: seq<Hit>, h: Hit, c: string)
    ensures Filter(rs + [h], InCategory(c)) == Filter(rs, InCategory(c)) + (if CategoryOf(h) == c then [h] else [])
  {
    FilterAppend(rs, [h], InCategory(c));
  }

  lemma FilterNone(rs: seq<Hit>, c: string)
    requires c !in Categories(rs)
    ensures Filter(rs, InCategory(c)) == []
  {
    if Filter(rs, InCategory(c)) != [] {
      FilterSpec(rs, InCategory(c));
      var h := Filter(rs, InCategory(c))[0];
      assert h in rs && CategoryOf(h) == c;
      CategoriesCover(rs);
    }
  }

  /** No category is listed twice. */
  lemma {:induction false} CategoriesDistinct(rs: seq<Hit>)
    ensures forall i, j :: 0 <= i < j < |Categories(rs)| ==> Categories(rs)[i] != Categories(rs)[j]
    decreases |rs|
  {
    if rs != [] {
      CategoriesDistinct(rs[..|rs| - 1]);
    }
  }

  /** Every entry's category is listed. */
  lemma {:induction false} CategoriesCover(rs: seq<Hit>)
    ensures forall h :: h in rs ==> CategoryOf(h) in Categories(rs)
    decreases |rs|
  {
    if rs != [] {
      var init := rs[..|rs| - 1];
      CategoriesCover(init);
      assert rs == init + [rs[|rs| - 1]];
      forall h | h in rs ensures CategoryOf(h) in Categories(rs) {
        if h != rs[|rs| - 1] {
          assert h in init;
        }
      }
    }
  }

  /** The grouping loop builds exactly the reference grouping, so it keeps
      every entry and the order within each category. */
  lemma {:induction false} GroupResultsSpec(rs: seq<Hit>)
    ensures GroupedBy(GroupResults(rs), rs)
    decreases |rs|
  {
    if rs != [] {
      var init := rs[..|rs| - 1];
      var h := rs[|rs| - 1];
      assert rs == init + [h];
      GroupResultsSpec(init);
      var gs := GroupResults(init);
      var cs := Categories(init);
      var c := CategoryOf(h);
      assert CategoryKeys(gs) == cs;
      CategoriesDistinct(init);
      var i0 := GroupIndex(gs, c);
      if i0 < 0 {
        FilterNone(init, c);
        FilterSnoc(init, h, c);
        forall i | 0 <= i < |gs| ensures gs[i] == Group(cs[i], Filter(rs, InCategory(cs[i]))) {
          FilterSnoc(init, h, cs[i]);
        }
      } else {
        forall i | 0 <= i < |gs| && i != i0 ensures gs[i] == Group(cs[i], Filter(rs, InCategory(cs[i]))) {
          FilterSnoc(init, h, cs[i]);
        }
        FilterSnoc(init, h, c);
      }
    }
  }

  function Total(gs: seq<Group>): nat {
    if gs == [] then 0 else |gs[0].items| + Total(gs[1..])
  }

  lemma {:induction false} TotalUpdate(gs: seq<Group>, i: nat, g: Group)
    requires i < |gs|
    ensures Total(gs[i := g]) == Total(gs) - |gs[i].items| + |g.items|
    decreases |gs|
  {
    if i > 0 {
      assert gs[i := g][1..] == gs[1..][i - 1 := g];
      TotalUpdate(gs[1..], i - 1, g);
    }
  }

  lemma {:induction false} TotalAppend(gs: seq<Group>, g: Group)
    ensures Total(gs + [g]) == Total(gs) + |g.items|
    decreases |gs|
  {
    if gs != [] {
      assert (gs + [g])[1..] == gs[1..] + [g];
      TotalAppend(gs[1..], g);
    }
  }

  /** Grouping keeps every entry: the groups hold as many entries as the list. */
  lemma {:induction false} GroupingKeepsAll(rs: seq<Hit>)
    ensures Total(GroupResults(rs)) == |rs|
    decreases |rs|
  {
    if rs != [] {
      var init := rs[..|rs| - 1];
      var h := rs[|rs| - 1];
      GroupingKeepsAll(init);
      var gs := GroupResults(init);
      var i := GroupIndex(gs, CategoryOf(h));
      if i < 0 {
        TotalAppend(gs, Group(CategoryOf(h), [h]));
      } else {
        TotalUpdate(gs, i, Group(gs[i].category, gs[i].items + [h]));
      }
    }
  }
}
