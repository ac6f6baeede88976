/** The application shell (`App.jsx`): the signed-in user and its saved
    session, the workspaces that user may open, the sidebar width, the state
    of the record form, the command palette's open flag and the view the
    current table name selects. Each event handler is a function from one
    shell state to the next. */
module Shell {
  import opened Wrappers
  import opened Seqs
  import opened JsText
  import opened JsValue
  import opened Json
  import opened Workspaces

  // ----------------------------------------------------------------- session

  /** What the `user` state initialiser produces from the saved text: the
      saved user, no user, or an exception (a saved text `JSON.parse`
      rejects, or a saved `null`, whose `admin_site` cannot be read). */
  datatype Restore = Restored(user: Value) | NoSession | Crash

  /** `n > 0` for a JavaScript value. */
  predicate Positive(v: Value) {
    match ToNumber(v)
    case Some(n) => n > 0.0
    case None => false
  }

  /** A user the shell keeps: its `admin_site` is truthy and has a positive
      `length` (a non-empty string or array). */
  predicate HasSites(user: Value) {
    var site := Property(user, "admin_site");
    Truthy(site) && Positive(Property(site, "length"))
  }

  /** The `user` state initialiser: the text saved under `hcj_user` is parsed
      when it is a non-empty string, and the parsed value is kept only when
      it has sites. */
  function RestoreSession(saved: Option<string>): (r: Restore)
    ensures saved.None? || saved == Some([]) ==> r == NoSession
    ensures r.Restored? <==>
      (saved.Some? && saved.value != [] && Parse(saved.value).Some? && HasSites(Parse(saved.value).value))
    ensures r.Restored? ==> Some(r.user) == Parse(saved.value)
    ensures r == Crash <==>
      (saved.Some? && saved.value != [] && (Parse(saved.value).None? || Parse(saved.value) == Some(Null)))
  {
    match saved
    case None => NoSession
    case Some(text) =>
      if text == [] then NoSession
      else match Parse(text)
        case None => Crash
        case Some(user) =>
          if user.Null? then Crash
          else if HasSites(user) then Restored(user) else NoSession
  }

  /** The text `localStorage.setItem` stores for a user: its JSON text, or
      the string "undefined" when `JSON.stringify` gives none. */
  function StoredText(user: Value): (t: string)
    ensures user != Undefined ==> Some(t) == Stringify(user)
  {
    match Stringify(user)
    case Some(text) => text
    case None => "undefined"
  }

  /** A user that signed in and has sites comes back unchanged when the page
      is reloaded, provided it is a plain JSON value. */
  lemma RestoreAfterLogin(user: Value)
    requires Clean(user) && HasSites(user)
    ensures RestoreSession(Some(StoredText(user))) == Restored(user)
  {
    ParseStringify(user);
    var text := StoredText(user);
    ParseNothing();
  }

  /** An empty text is not JSON. */
  lemma ParseNothing()
    ensures Parse([]) == None
  {
  }

  /** A user without sites is not kept across a reload. */
  lemma NoSitesNotRestored(user: Value)
    requires Clean(user) && !HasSites(user) && user != Null
    ensures RestoreSession(Some(StoredText(user))) == NoSession
  {
    ParseStringify(user);
    var text := StoredText(user);
    ParseNothing();
  }

  // -------------------------------------------------------------- workspaces

  /** `site?.includes(word)`: `undefined` (so false) for a missing site, a
      substring test on a string, an element test on an array, and a
      TypeError (`None`) on any other value. */
  function SiteIncludes(site: Value, word: string): (r: Option<bool>)
    ensures r.None? <==> !(site.Undefined? || site.Null? || site.Str? || site.Arr?)
    ensures site.Str? ==> r == Some(exists i :: 0 <= i <= |site.s| && OccursAt(site.s, word, i))
    ensures site.Arr? ==> r == Some(Str(word) in site.items)
  {
    match site
    case Undefined => Some(false)
    case Null => Some(false)
    case Str(s) => IncludesIff(s, word); Some(Includes(s, word))
    case Arr(items) => Some(Str(word) in items)
    case _ => None
  }

  /** The site word that grants each workspace key. */
  function GrantWord(key: string): string {
    if key == "hcj" then "juvenat" else if key == "rh" then "rh" else if key == "abc" then "bureau" else ""
  }

  /** The filter of `accessibleWorkspaces`: a known key whose word the user's
      sites include. */
  function GrantPredicate(site: Value): ((string, Workspace)) -> bool {
    (e: (string, Workspace)) => GrantWord(e.0) != [] && SiteIncludes(site, GrantWord(e.0)) == Some(true)
  }

  /** `accessibleWorkspaces`: every configured workspace when nobody is
      signed in, otherwise the configured workspaces the user's sites grant,
      in configuration order; `None` where reading the sites throws. */
  function Accessible(user: Value): (r: Option<seq<(string, Workspace)>>)
    ensures !Truthy(user) ==> r == Some(Configured)
    ensures r.None? <==> Truthy(user) && SiteIncludes(Property(user, "admin_site"), "").None?
    ensures r.Some? ==> SubsequenceOf(r.value, Configured)
  {
    if !Truthy(user) then SubsequenceOfSelf(Configured); Some(Configured)
    else
      var site := Property(user, "admin_site");
      if SiteIncludes(site, "").None? then None
      else
        FilterSpec(Configured, GrantPredicate(site));
        Some(Filter(Configured, GrantPredicate(site)))
  }

  /** Which workspaces a signed-in user reaches: the hospital exactly when
      the sites include "juvenat", human resources when they include "rh",
      the central office when they include "bureau". */
  lemma AccessibleIff(user: Value)
    requires Truthy(user) && Accessible(user).Some?
    ensures var site := Property(user, "admin_site");
      var ws := Accessible(user).value;
      (("hcj", Hcj) in ws <==> SiteIncludes(site, "juvenat") == Some(true)) &&
      (("rh", Rh) in ws <==> SiteIncludes(site, "rh") == Some(true)) &&
      (("abc", Abc) in ws <==> SiteIncludes(site, "bureau") == Some(true))
  {
    var site := Property(user, "admin_site");
    var p := GrantPredicate(site);
    FilterSpec(Configured, p);
    assert Configured[0] == ("hcj", Hcj) && Configured[1] == ("rh", Rh) && Configured[2] == ("abc", Abc);
    assert p(("hcj", Hcj)) == (SiteIncludes(site, "juvenat") == Some(true));
    assert p(("rh", Rh)) == (SiteIncludes(site, "rh") == Some(true));
    assert p(("abc", Abc)) == (SiteIncludes(site, "bureau") == Some(true));
  }

  /** `actualWorkspaceKey`: the requested key when it is accessible, else the
      first accessible key; `None` (the `undefined` of an empty key list)
      when nothing is accessible. */
  function ActiveKey(entries: seq<(string, Workspace)>, requested: string): (r: Option<string>)
    ensures r.Some? ==> r.value in EntryKeys(entries)
    ensures r.None? <==> entries == []
    ensures requested in EntryKeys(entries) ==> r == Some(requested)
    ensures requested !in EntryKeys(entries) && entries != [] ==> r == Some(entries[0].0)
  {
    if Lookup(entries, requested).Some? then Some(requested)
    else if entries == [] then None
    else Some(entries[0].0)
  }

  /** `currentWorkspace`: the workspace of the active key, falling back on
      the hospital workspace when there is none. */
  function CurrentWorkspace(entries: seq<(string, Workspace)>, requested: string): (w: Workspace)
    ensures entries != [] ==> exists k :: (k, w) in entries
    ensures ActiveKey(entries, requested).Some? ==> (ActiveKey(entries, requested).value, w) in entries
    ensures entries == [] ==> w == Hcj
  {
    match ActiveKey(entries, requested)
    case Some(k) => Lookup(entries, k).value
    case None => Hcj
  }

  /** The shown workspace is always one of the configured three, and it is
      the requested one whenever the user may open it. */
  lemma CurrentWorkspaceConfigured(user: Value, requested: string)
    requires Accessible(user).Some?
    ensures var w := CurrentWorkspace(Accessible(user).value, requested);
      w == Hcj || w == Rh || w == Abc
    ensures var entries := Accessible(user).value;
      requested in EntryKeys(entries) ==> (requested, CurrentWorkspace(entries, requested)) in entries
  {
    var entries := Accessible(user).value;
    var w := CurrentWorkspace(entries, requested);
    if entries != [] {
      var k :| (k, w) in entries;
      SubsequenceMembers(entries, Configured, (k, w));
    }
  }

  /** A signed-in user whose sites name no workspace still sees the hospital
      workspace. */
  lemma NoGrantShowsHospital()
    ensures Accessible(Obj([Field("admin_site", Str("x"))])) == Some([])
    ensures CurrentWorkspace([], "rh") == Hcj
  {
    var site := Str("x");
    var p := GrantPredicate(site);
    assert !Includes("x", "juvenat") && !Includes("x", "rh") && !Includes("x", "bureau");
    assert !p(Configured[0]) && !p(Configured[1]) && !p(Configured[2]);
    assert Configured[1..][1..][1..] == [];
  }

  // ----------------------------------------------------------------- sidebar

  const MinWidth: real := 180.0
  const MaxWidth: real := 400.0

  /** The sidebar width while dragging: the width at the start of the drag
      moved by the pointer's travel, held between 180 and 400 pixels. */
  function DraggedWidth(startWidth: real, startX: real, clientX: real): (w: real)
    ensures MinWidth <= w <= MaxWidth
    ensures MinWidth <= startWidth + (clientX - startX) <= MaxWidth ==> w == startWidth + (clientX - startX)
  {
    var wanted := startWidth + (clientX - startX);
    var atLeast := if MinWidth > wanted then MinWidth else wanted;
    if MaxWidth < atLeast then MaxWidth else atLeast
  }

  /** Dragging further right never narrows the sidebar, and a drag that
      returns to where it started restores any width in range. */
  lemma DraggedWidthMonotone(startWidth: real, startX: real, x1: real, x2: real)
    requires x1 <= x2
    ensures DraggedWidth(startWidth, startX, x1) <= DraggedWidth(startWidth, startX, x2)
    ensures MinWidth <= startWidth <= MaxWidth ==> DraggedWidth(startWidth, startX, startX) == startWidth
  {
  }

  // ------------------------------------------------------------- shell state

  /** The record form's state: whether it is open, the record being edited
      (`null` for a new one), the table it targets (`null` for the current
      table), prefilled data, locked field names and the stock upsert flag. */
  datatype Form = Form(open: bool, entity: Value, tableName: Value, initialData: Value,
                       lockedFields: Value, upsertStock: bool)

  /** The closed form the shell starts with. */
  const ClosedForm := Form(false, Null, Null, Null, Arr([]), false)

  /** The shell's state: signed-in user, saved session text, lock flag,
      requested workspace, current table, palette and mobile-sidebar flags,
      and the form. */
  datatype State = State(user: Value, saved: Option<string>, locked: bool, workspaceKey: string,
                         currentTable: string, searchOpen: bool, sidebarOpen: bool, form: Form)

  /** The state at start-up, from the saved session text (`None` where the
      initialiser throws). */
  function Start(saved: Option<string>): (s: Option<State>)
    ensures s.Some? <==> RestoreSession(saved) != Crash
    ensures s.Some? ==> s.value.currentTable == "dashboard" && s.value.workspaceKey == "hcj"
    ensures s.Some? ==> !s.value.form.open && !s.value.searchOpen
    ensures s.Some? ==> (s.value.user != Null <==> RestoreSession(saved).Restored?)
  {
    var user := match RestoreSession(saved)
      case Restored(u) => Some(u)
      case NoSession => Some(Null)
      case Crash => None;
    if user.None? then None
    else
      assert RestoreSession(saved).Restored? ==> HasSites(user.value) && user.value != Null;
      Some(State(user.value, saved, false, "hcj", "dashboard", false, false, ClosedForm))
  }

  /** The login screen's success callback: the user is kept and saved. */
  function Login(s: State, user: Value): (s': State)
    ensures s'.user == user && s'.saved == Some(StoredText(user))
    ensures s'.currentTable == s.currentTable && s'.form == s.form
  {
    s.(user := user, saved := Some(StoredText(user)))
  }

  /** The sidebar's logout: no user and no saved session. */
  function Logout(s: State): (s': State)
    ensures s'.user == Null && RestoreSession(s'.saved) == NoSession
    ensures s'.currentTable == s.currentTable
  {
    s.(user := Null, saved := None)
  }

  /** Signing in and reloading the page gives back the same user; signing
      out and reloading gives none. */
  lemma ReloadAfterLogin(s: State, user: Value)
    requires Clean(user) && HasSites(user)
    ensures var s' := Start(Login(s, user).saved);
      s'.Some? && s'.value.user == user
    ensures var s' := Start(Logout(s).saved);
      s'.Some? && s'.value.user == Null
  {
    RestoreAfterLogin(user);
  }

  /** `onWorkspaceChange`: the requested workspace changes and the dashboard
      is shown. */
  function ChangeWorkspace(s: State, key: string): (s': State)
    ensures s'.workspaceKey == key && s'.currentTable == "dashboard"
    ensures s'.form == s.form && s'.user == s.user && s'.searchOpen == s.searchOpen
  {
    s.(workspaceKey := key, currentTable := "dashboard")
  }

  /** `onTableChange` of the sidebar and `onNavigate` of the palette: the
      table is shown and the palette and mobile sidebar close. */
  function Navigate(s: State, table: string): (s': State)
    ensures s'.currentTable == table && !s'.searchOpen && !s'.sidebarOpen
    ensures s'.form == s.form && s'.workspaceKey == s.workspaceKey && s'.user == s.user
  {
    s.(currentTable := table, searchOpen := false, sidebarOpen := false)
  }

  /** `handleEdit`: the form opens on the given record of the current table,
      with no prefilled data, no locked field and no upsert. */
  function HandleEdit(s: State, entity: Value): (s': State)
    ensures s'.form.open && s'.form.entity == entity
    ensures s'.form.tableName == Str(s.currentTable)
    ensures s'.form.initialData == Null && s'.form.lockedFields == Arr([]) && !s'.form.upsertStock
    ensures s' == s.(form := s'.form)
  {
    s.(form := Form(true, entity, Str(s.currentTable), Null, Arr([]), false))
  }

  /** `handleCreate(options = {})`: the form opens on a new record of
      `options.tableName` or the current table, with `options.initialData`
      or `null`, `options.lockedFields` or none, and `options.upsertStock` as
      a boolean. `None` where the options are `null` and reading them throws. */
  function HandleCreate(s: State, options: Value): (s': Option<State>)
    ensures s'.None? <==> options.Null?
    ensures s'.Some? ==> s'.value == s.(form := s'.value.form)
    ensures s'.Some? ==> s'.value.form.open && s'.value.form.entity == Null
    ensures s'.Some? ==> s'.value.form.upsertStock == Truthy(Property(options, "upsertStock"))
    ensures s'.Some? ==> Truthy(s'.value.form.lockedFields) || s'.value.form.lockedFields == Arr([])
    ensures s'.Some? && Truthy(Property(options, "tableName")) ==> s'.value.form.tableName == Property(options, "tableName")
    ensures s'.Some? && !Truthy(Property(options, "tableName")) ==> s'.value.form.tableName == Str(s.currentTable)
    ensures s'.Some? && Truthy(Property(options, "initialData")) ==> s'.value.form.initialData == Property(options, "initialData")
    ensures s'.Some? && !Truthy(Property(options, "initialData")) ==> s'.value.form.initialData == Null
    ensures s'.Some? && Truthy(Property(options, "lockedFields")) ==> s'.value.form.lockedFields == Property(options, "lockedFields")
    ensures s'.Some? && !Truthy(Property(options, "lockedFields")) ==> s'.value.form.lockedFields == Arr([])
  {
    if options.Null? then None
    else
      var opts := if options.Undefined? then Obj([]) else options;
      Some(s.(form := Form(true, Null,
        Or(Property(opts, "tableName"), Str(s.currentTable)),
        Or(Property(opts, "initialData"), Null),
        Or(Property(opts, "lockedFields"), Arr([])),
        Truthy(Property(opts, "upsertStock")))))
  }

  /** The table the form works on: `formTableName || currentTable`. */
  function FormTable(s: State): (t: Value)
    ensures Truthy(s.form.tableName) ==> t == s.form.tableName
    ensures !Truthy(s.form.tableName) ==> t == Str(s.currentTable)
  {
    Or(s.form.tableName, Str(s.currentTable))
  }

  /** The browser's "new" button passes its click event as the options: an
      object with none of the option names. The form it opens targets the
      current table and otherwise matches an edit of no record. */
  lemma CreateFromClick(s: State, event: Row)
    requires !Has(event, "tableName") && !Has(event, "initialData")
    requires !Has(event, "lockedFields") && !Has(event, "upsertStock")
    ensures var s' := HandleCreate(s, Obj(event));
      s'.Some? && s'.value == HandleEdit(s, Null)
    ensures FormTable(HandleEdit(s, Null)) == Str(s.currentTable)
  {
  }

  /** The form's `onClose`: closed, with its table, prefilled data, locks
      and upsert flag cleared; the record being edited is left as it was. */
  function Close(s: State): (s': State)
    ensures !s'.form.open && s'.form.entity == s.form.entity
    ensures s'.form == ClosedForm.(entity := s.form.entity)
    ensures s' == s.(form := s'.form)
  {
    s.(form := Form(false, s.form.entity, Null, Null, Arr([]), false))
  }

  /** `handleSave`: the form closes as on `onClose` and the current table is
      blanked, so the browser unmounts; the second state is the one after
      the 10 ms timer puts the table back. */
  function HandleSave(s: State): (r: (State, State))
    ensures r.0.currentTable == "" && r.1.currentTable == s.currentTable
    ensures r.0.form == r.1.form
  {
    var closed := s.(form := Form(false, s.form.entity, Null, Null, Arr([]), false));
    (closed.(currentTable := ""), closed)
  }

  /** Once its timer has fired, saving leaves the shell exactly as closing
      the form does, and every form opened afterwards starts from the same
      reset fields. */
  lemma SaveIsCloseAfterTimer(s: State)
    ensures HandleSave(s).1 == Close(s)
    ensures Route(HandleSave(s).0.currentTable) == Blank
  {
  }

  /** The shell's key listener: Cmd+K or Ctrl+K opens the palette, Escape
      closes it, any other key leaves it. */
  function ShellKey(open: bool, meta: bool, ctrl: bool, key: string): (open': bool)
    ensures key == "Escape" ==> !open'
    ensures (meta || ctrl) && key == "k" ==> open'
    ensures key != "Escape" && !((meta || ctrl) && key == "k") ==> open' == open
  {
    var afterK := if (meta || ctrl) && key == "k" then true else open;
    if key == "Escape" then false else afterK
  }

  /** Holding a key down repeats it without further effect, and the state
      after either shortcut does not depend on the state before it. */
  lemma ShellKeyRepeat(open: bool, other: bool, meta: bool, ctrl: bool, key: string)
    ensures ShellKey(ShellKey(open, meta, ctrl, key), meta, ctrl, key) == ShellKey(open, meta, ctrl, key)
    ensures key == "Escape" || ((meta || ctrl) && key == "k") ==>
      ShellKey(open, meta, ctrl, key) == ShellKey(other, meta, ctrl, key)
  {
  }

  // ----------------------------------------------------------------- routing

  /** The screen the shell shows. */
  datatype Screen = LoginScreen | LockScreen | Main

  /** No user: the login screen; locked: the lock screen; else the app. */
  function ScreenOf(s: State): (r: Screen)
    ensures r == LoginScreen <==> !Truthy(s.user)
    ensures r == Main <==> Truthy(s.user) && !s.locked
  {
    if !Truthy(s.user) then LoginScreen else if s.locked then LockScreen else Main
  }

  /** The view of the content area. */
  datatype View = DashboardView | RequisitionList | RequisitionForm | TableBrowser(table: string) | Blank

  /** The content area's view for the current table name: the three named
      screens, the table browser for any other non-empty name, nothing for
      the empty name. */
  function Route(currentTable: string): (v: View)
    ensures v.TableBrowser? ==> v.table == currentTable
    ensures v == Blank <==> currentTable == []
  {
    if currentTable == "dashboard" then DashboardView
    else if currentTable == "requisition" then RequisitionList
    else if currentTable == "submit_requisition" then RequisitionForm
    else if currentTable == [] then Blank
    else TableBrowser(currentTable)
  }

  /** The table name each view is reached from. */
  function ViewName(v: View): string {
    match v
    case DashboardView => "dashboard"
    case RequisitionList => "requisition"
    case RequisitionForm => "submit_requisition"
    case TableBrowser(t) => t
    case Blank => ""
  }

  /** A view the routing can produce: a browser only for a name that is not
      one of the named screens. */
  predicate Routable(v: View) {
    v.TableBrowser? ==> v.table !in {"dashboard", "requisition", "submit_requisition", ""}
  }

  /** Routing is a bijection between table names and routable views: every
      name is recovered from its view and every routable view is reached
      from its name. */
  lemma RouteRoundTrip(t: string, v: View)
    ensures ViewName(Route(t)) == t && Routable(Route(t))
    ensures Routable(v) ==> Route(ViewName(v)) == v
  {
  }

  /** The screens' own navigation: the dashboard's shortcuts, the list's
      "new" button (to the submission form) and the form's "back" button. */
  lemma RequisitionNavigation()
    ensures Route("submit_requisition") == RequisitionForm && Route("requisition") == RequisitionList
    ensures Route("stock") == TableBrowser("stock")
  {
  }
}
