# CRUD-HCJ client logic in Dafny

CRUD-HCJ is a React client for a hospital and office administration database
hosted on a remote backend. Its components are mostly presentation, but they
contain a body of small, sequential decision logic. This project models that
logic as pure Dafny functions over immutable data and proves what the
components promise about it:

- **Shell** (`src/App.jsx`):
  - restoring the saved session;
  - the workspaces a user's `admin_site` grants, and the fallback workspace;
  - the sidebar width clamp;
  - the record form's open, edit, create, save and close transitions;
  - the key listener, and the view the current table name routes to.
- **Table browser** (`src/components/DataTable.jsx`):
  - page ranges;
  - flattening of the stock join, and the columns;
  - the CSV export, with a reader in the manner of section 2 of RFC 4180, so the export can be read back;
  - the search box, the low-stock marker and the page buttons.
- **Record form** (`src/components/EntityForm.jsx`):
  - field templates and the initial form data;
  - numeric coercion of inputs and the saved payload;
  - the update, upsert or insert decision against a backend table.
- **Requisitions** (`src/components/RequisitionView.jsx`, `src/components/SubmitRequisition.jsx`):
  - status tabs and counts, and the status and flag switches;
  - the tolerant line-item reader;
  - the draft line items and the submitted record, with JSON (RFC 8259) `JSON.stringify` and `JSON.parse` to connect the two.
- **Command palette** (`src/components/CommandPalette.jsx`):
  - quick navigation and table matching;
  - the seven record sections and their workspace scoping;
  - the "no result" placeholder;
  - the keyboard handler, grouping by category and table labels.
- **Dashboard** (`src/components/Dashboard.jsx`): the low-stock count, the count defaults and the alert.

JavaScript values are a datatype (`JsValue.Value`): `undefined`, `null`, booleans, numbers as exact reals, NaN, strings, arrays and objects. An object is a `Row`, the ordered list of its own properties in the order they were added, because `Object.keys` order decides table columns and form fields. `JsValue.Truthy`, `Or` (`a || b`), `ToStr` (`String(v)`), `ToNumber` and `StrictEquals` (`===`) spell out the coercions the components rely on. An exception is an explicit `None`, `Crash` or `thrown` result.

The backend is not modelled as a service:
- Every query answer is a parameter: the rows it returns, or the error it reports.
- The record form's writes act on an abstract table, a sequence of rows with identity ids.

Modules: `Wrappers`, `Seqs`, `JsText`, `JsNumber`, `JsValue` and `Json` are the JavaScript substrate. `Csv`, `Inventory`, `Workspaces`, `DataTable`, `EntityForm`, `Requisitions`, `SubmitRequisition`, `CommandPalette`, `Shell` and `Dashboard` follow the components.

## Behaviour as the code has it

- **CSV export.** The export writes every loaded row (`data`), not only the rows the search box keeps (`src/components/DataTable.jsx:76`).
- **Palette search failures.** The per-table searches run one after another inside one `try`. A backend error only empties that section. A `TypeError` while building an entry aborts every later section, but the entries already pushed are kept. Two inputs cause this: a medication name that is not a string (`src/components/CommandPalette.jsx:245`), and a non-string id reached by `substring` (`src/components/CommandPalette.jsx:199`).
- **Session restore.** Restoring the session can throw: a saved text that is not JSON, or a saved `null` (`src/App.jsx:42-43`).
- **Empty search term.** An empty search term keeps only rows with at least one property, since `.some` over no values is false (`src/components/DataTable.jsx:102-106`).
- **ArrowDown on an empty list.** On an empty result list, ArrowDown selects index -1 (`src/components/CommandPalette.jsx:35`).
- **Low stock.** A `null` quantity counts as low stock, because `null < 20` is true (`src/components/Dashboard.jsx:37`).

## Model

| member | source | states |
|---|---|---|
| `Json.ParseStringify` | src/components/SubmitRequisition.jsx:59 | `JSON.parse` of `JSON.stringify`'s text gives back every value without `undefined`, NaN, fractions or repeated keys |
| `Json.EncodeRoundTrip` | src/components/SubmitRequisition.jsx:59 | the text `JSON.stringify` writes for a value without `undefined`, NaN, fractions or repeated keys is read back by `JSON.parse` as that value, whatever delimiter follows it |
| `Json.StringRoundTrip` | src/components/SubmitRequisition.jsx:59 | a string's escaped text, closed by a quote, reads back as the string, and the reader stops just after the closing quote |
| `Json.EscapeCharRoundTrip` | src/components/SubmitRequisition.jsx:59 | each character's escape (a short escape, a `\u00XX` escape for other control characters, or the character itself) reads back as that character, and reading then goes on over what follows exactly as it would without it |
| `Inventory.LowQuantityOfNumber` | src/components/Dashboard.jsx:37 | the shared stock rule `quantite < 20`: on numbers exactly n < 20, 19 is low and 20 is not, `null` is low and `undefined` is not |
| `Workspaces.Lookup` | src/App.jsx:59-60 | looking a key up among workspace entries finds a workspace exactly when the key is among the entries' keys, and the one found is paired with that key |
| `Requisitions.StatusOf` | src/components/RequisitionView.jsx:70-71 | a row lies in a status tab exactly when its `etat` is strictly equal to that tab's key, so it lies in at most one tab |
| `Requisitions.ParseArticles` | src/components/RequisitionView.jsx:39-46 | reading line items never fails: falsy input gives `[]`, an array is returned as is, another non-string value becomes a one-item list, text that is not JSON gives `[]` (lone-surrogate escapes included, see below), JSON text gives its value |
| `Requisitions.UpdateWhere` | src/components/RequisitionView.jsx:52 | the cached list keeps its length and order; the rows whose id is strictly equal take the new value under the key, every other row is unchanged, and no other key of any row changes |
| `Requisitions.UpdateSelected` | src/components/RequisitionView.jsx:53 | the open requisition takes the new value only when its id matches, and keeps every other key |
| `Requisitions.Write` | src/components/RequisitionView.jsx:48-57 | a backend error leaves the list and the open requisition unchanged and shows "Erreur: " and the message; success updates both and shows nothing |
| `Requisitions.UpdateEtat` | src/components/RequisitionView.jsx:48-53 | any status can be set from any status: on success the matching rows move to the new tab and every other row is unchanged; on error nothing changes |
| `Requisitions.Toggle` | src/components/RequisitionView.jsx:59-64 | on success the matching rows hold the negation of the value shown under exactly the named flag, no other key of any row changes, the other rows stay as they were, and the open requisition takes the same write when its id matches |
| `Requisitions.EtatKeepsFlags` | src/components/RequisitionView.jsx:52-53 | a status change never touches `proforma` or `livraison`, in the list or in the open requisition |
| `Requisitions.ToggleTwice` | src/components/RequisitionView.jsx:61-64 | when the flag holds a boolean, toggling it twice, each time with the value then shown, restores every row and the open requisition |
| `Requisitions.ToggleUnsetTwice` | src/components/RequisitionView.jsx:59-64 | when the flag is unset (`null` or absent, as on a newly submitted requisition), two toggles leave it `false` on the matching rows and the open requisition, so a `null` flag is not restored; other rows are untouched |
| `Requisitions.Filtered` | src/components/RequisitionView.jsx:70-78 | an empty search term shows the whole tab; the search throws exactly when some row of the tab has a truthy non-string `personnel` |
| `Requisitions.FilteredIsSubsequence` | src/components/RequisitionView.jsx:70-78 | the cards shown are the rows of the active tab matching the search, in fetched order |
| `Requisitions.TabCount` | src/components/RequisitionView.jsx:80-83 | a tab's count is the number of rows shown in that tab with no search |
| `Requisitions.TabCountsSum` | src/components/RequisitionView.jsx:80-83 | the three counts add up to the number of rows less those with a missing or unknown status, so never more than the total |
| `Requisitions.BadgeStatus` | src/components/RequisitionView.jsx:296-299 | the badge colours are those of the status whose key is the `etat`'s string form, and the pending colours for any other value |
| `Requisitions.BadgeOfRow` | src/components/RequisitionView.jsx:296-299 | a filed row shows its own tab's colours, and a row with an unknown text status shows the pending colours |
| `SubmitRequisition.ArticleValue` | src/components/SubmitRequisition.jsx:39 | a stored line item is an object with the keys `nom`, `quantite`, `presentation` in that order, holding the item's values |
| `SubmitRequisition.Quantity` | src/components/SubmitRequisition.jsx:39 | `parseInt(quantite) \|\| 1` is never 0 |
| `SubmitRequisition.QuantityFallback` | src/components/SubmitRequisition.jsx:39 | a quantity `parseInt` reads as 0 or as no number at all becomes 1 |
| `SubmitRequisition.QuantityOfTyped` | src/components/SubmitRequisition.jsx:39 | a typed non-zero integer is stored as that integer |
| `SubmitRequisition.QuantityOfDefault` | src/components/SubmitRequisition.jsx:41 | the reset quantity input adds one of the item |
| `SubmitRequisition.AddArticle` | src/components/SubmitRequisition.jsx:37-43 | a blank name changes nothing; any other name appends exactly one item, with trimmed name and presentation and a non-zero quantity, keeps the earlier items and resets the draft |
| `SubmitRequisition.RemoveArticleSpec` | src/components/SubmitRequisition.jsx:45-47 | removing index i drops exactly that item and keeps the rest in order; an index outside the list changes nothing |
| `SubmitRequisition.NewRequisition` | src/components/SubmitRequisition.jsx:57-61 | the inserted record has the keys `personnel`, `article`, `etat`, the selected personnel, and lies in the pending tab |
| `SubmitRequisition.Submit` | src/components/SubmitRequisition.jsx:49-74 | nothing is sent exactly when the submit button would be disabled (no personnel or no item), with the fixed alert; success exactly when sent without a backend error, and a backend error shows "Erreur lors de la soumission: " and its message |
| `SubmitRequisition.SubmittedArticlesRoundTrip` | src/components/SubmitRequisition.jsx:57-61 | reading the inserted record's `article` with the list's reader gives back exactly the submitted line items |
| `EntityForm.Template` | src/components/EntityForm.jsx:6-12 | the stock template is medication, institution, quantity and price; a table without a template offers no field |
| `EntityForm.InitialFields` | src/components/EntityForm.jsx:23-30 | an existing record's fields are its keys in order, minus `id`, `created_at`, `updated_at`, `medicament_nom` and `medicaments`; a new record's are the template |
| `EntityForm.FieldsWithId` | src/components/EntityForm.jsx:23-30 | `id` is a field only for a new personnel record |
| `EntityForm.InitialFormDataGet` | src/components/EntityForm.jsx:32-35 | in the initial form data the record's values override the preset values on shared keys, and keys stay distinct |
| `EntityForm.Coerce` | src/components/EntityForm.jsx:42-45 | other fields store the text; the four numeric fields store `null` for empty text and otherwise a number or NaN |
| `EntityForm.CoerceInteger` | src/components/EntityForm.jsx:44 | integer text in a numeric field is stored as that integer |
| `EntityForm.CoerceDecimal` | src/components/EntityForm.jsx:44 | decimal text with a point in a numeric field takes the float branch and is stored as its value |
| `EntityForm.HandleChange` | src/components/EntityForm.jsx:39-50 | a change stores the checkbox state or the coerced text under the named key and changes no other key |
| `EntityForm.Collect` | src/components/EntityForm.jsx:55-58 | the saved data holds exactly the fields whose form value is not `undefined`, with those values; locked fields are not excluded |
| `EntityForm.Payload` | src/components/EntityForm.jsx:55-61 | a stock record always carries a non-null `institution_id`; other tables send the collected data unchanged |
| `EntityForm.StockInstitution` | src/components/EntityForm.jsx:59-61 | the stock default 1 applies exactly when the form gives no institution or `null`; otherwise the form's value is kept |
| `EntityForm.StockPayloadHasNoId` | src/components/EntityForm.jsx:25-29 | a stock record is never sent with an `id` |
| `EntityForm.Decide` | src/components/EntityForm.jsx:65-88 | a record with a truthy id is updated by that id; otherwise a stock record with the upsert option is upserted; everything else is inserted, the option being ignored off the stock table |
| `EntityForm.UpdateRows` | src/components/EntityForm.jsx:66 | an update by id merges the data into exactly the rows with that id |
| `EntityForm.InsertRow` | src/components/EntityForm.jsx:85 | an insert appends one row holding the data, with a fresh id when it has none |
| `EntityForm.PairMatches` | src/components/EntityForm.jsx:70-75 | the pair lookup finds exactly the rows holding the record's medication and institution, a null matching nothing |
| `EntityForm.Written` | src/components/EntityForm.jsx:89-92 | the save succeeds exactly when the backend reports no error, and exactly then no alert shows; success keeps the written rows, and an error leaves the table and shows "Error: " and the message |
| `EntityForm.Persist` | src/components/EntityForm.jsx:63-95 | `onSave` runs exactly when no alert is shown, only when the write reports no error, and a failed save leaves the table unchanged; an edit with an id updates the rows with that id, a plain insert appends the record, and an upsert with no lookup or write error updates the one row holding the pair (when it has an id) or else inserts, while several rows holding the pair give the backend's error |
| `EntityForm.UpsertStoresPair` | src/components/EntityForm.jsx:69-90 | after a successful upsert some row holds the record's (medication, institution) pair, and the table grows by one row exactly when no row with an id held that pair |
| `EntityForm.UpsertKeepsPairsDistinct` | src/components/EntityForm.jsx:69-83 | an upsert keeps ids positive and distinct and never gives two rows the same set (medication, institution) pair |
| `EntityForm.UpsertAllKeepsPairsDistinct` | src/components/EntityForm.jsx:69-83 | upserts run one after another keep the table free of duplicate pairs |
| `EntityForm.InsertCanDuplicate` | src/components/EntityForm.jsx:84-86 | plain inserts of the same stock record twice leave two rows with one pair |
| `DataTable.PageOfIndex` | src/components/DataTable.jsx:46-47 | row n of the table is fetched on page n / 15 at position n mod 15, and past the table's end that position is empty |
| `DataTable.FetchRange` | src/components/DataTable.jsx:46-47 | an inclusive range request returns exactly the table's rows from `from` to `to` that exist, in order, and nothing for an empty range |
| `DataTable.FetchPage` | src/components/DataTable.jsx:23-47 | page p is exactly the table's rows 15p to 15p + 14 that exist, in order, so at most 15 rows |
| `DataTable.FirstPagesArePrefix` | src/components/DataTable.jsx:46-47 | reading pages 0 to k-1 of one fixed row order gives that order's first 15k rows, none skipped or repeated |
| `DataTable.ShortPageIsLast` | src/components/DataTable.jsx:206 | after a page with fewer than 15 rows, every later page is empty |
| `DataTable.Flatten` | src/components/DataTable.jsx:52-59 | a row with a truthy join gains `medicament_nom` from the join's `Nom` and loses `medicaments`; other keys are unchanged and rows without the join are left alone |
| `DataTable.FlattenIdempotent` | src/components/DataTable.jsx:52-59 | flattening a flattened row changes nothing |
| `DataTable.Load` | src/components/DataTable.jsx:46-67 | an error keeps the previous rows and columns; an empty page clears both; otherwise every row is flattened and the columns are the first row's keys |
| `DataTable.LoadedColumns` | src/components/DataTable.jsx:53-61 | a stock page shows the medication name column and never the join |
| `DataTable.CellText` | src/components/DataTable.jsx:77 | a falsy value exports as an empty cell and a truthy one as its string form |
| `DataTable.CellRows` | src/components/DataTable.jsx:76-77 | one list of cell texts per loaded row, one text per column |
| `DataTable.ExportCsv` | src/components/DataTable.jsx:73-79 | the export does nothing exactly when no row is loaded |
| `DataTable.ExportRoundTrip` | src/components/DataTable.jsx:73-79 | read back, the export is the header then one record per loaded row with its cell texts: the row count does not depend on the search |
| `DataTable.SomeValueMatchesIff` | src/components/DataTable.jsx:103-105 | the left-to-right scan matches exactly when some value's lower-cased string form contains the term |
| `DataTable.FilteredData` | src/components/DataTable.jsx:102-106 | the search keeps, in order and as often as they occur, exactly the loaded rows with a value whose string form contains the term ignoring case, so the record count under the table is the number of such rows |
| `DataTable.EmptySearch` | src/components/DataTable.jsx:102-106 | an empty term keeps exactly the rows with at least one property |
| `DataTable.LowStockMarkerIff` | src/components/DataTable.jsx:169-173 | the low-stock marker shows exactly in the stock table's `quantite` column on values below 20: 19 is marked and 20 is not |
| `DataTable.PreviousPage` | src/components/DataTable.jsx:205 | "previous" moves one page back and never below page 0 |
| `DataTable.NextButton` | src/components/DataTable.jsx:205-206 | when "next" is disabled no later page has rows, and when enabled the next page starts within or at the end of the table |
| `Csv.QuotedBodyRoundTrip` | src/components/DataTable.jsx:77 | undoing the doubled quotes of an exported cell gives back its text, and the reader stops at the closing quote |
| `Csv.QuotedFieldRoundTrip` | src/components/DataTable.jsx:77 | a quoted cell reads back as its text |
| `Csv.PlainFieldRoundTrip` | src/components/DataTable.jsx:75 | a header name without commas, line feeds or a leading quote reads back as itself |
| `Csv.QuotedLineRoundTrip` | src/components/DataTable.jsx:76-77 | a line of quoted cells reads back as those cells |
| `Csv.HeaderRoundTrip` | src/components/DataTable.jsx:75 | the comma-joined header reads back as the column names |
| `Csv.QuotedLinesRoundTrip` | src/components/DataTable.jsx:76-78 | the line-feed-joined data lines read back as the rows of cells |
| `Csv.DocumentRoundTrip` | src/components/DataTable.jsx:75-79 | header, line feed and data lines read back as the header record followed by the data records |
| `CommandPalette.LabelOf` | src/components/CommandPalette.jsx:600-617 | a table with a fixed label has a non-empty one |
| `CommandPalette.FormatTableName` | src/components/CommandPalette.jsx:599-619 | a table with a fixed label shows it; any other name shows with its first letter upper-cased and the rest unchanged |
| `CommandPalette.WorkspaceTablesLabelled` | src/components/CommandPalette.jsx:600-617 | every table of the three workspaces has a fixed label |
| `CommandPalette.FormatNonEmpty` | src/components/CommandPalette.jsx:618 | a non-empty table name never shows as empty text |
| `CommandPalette.NavHits` | src/components/CommandPalette.jsx:93-103 | one navigation entry per table, in order, opening that table |
| `CommandPalette.ActiveTables` | src/components/CommandPalette.jsx:309-311 | the usable tables are the workspace's tables minus its inactive ones, in workspace order |
| `CommandPalette.QuickNav` | src/components/CommandPalette.jsx:308-321 | quick navigation is one "Navigation rapide" entry per usable table, in workspace order |
| `CommandPalette.MatchedTables` | src/components/CommandPalette.jsx:89-92 | the matched tables are, in order, exactly the usable workspace tables whose name contains the term ignoring case |
| `CommandPalette.EmptyTermMatchesAll` | src/components/CommandPalette.jsx:65-92 | a query of spaces that passes the length check trims to the empty term, which matches every usable table |
| `CommandPalette.FilterActions` | src/components/CommandPalette.jsx:82-85 | exactly the buttons with no target table or a target in the workspace are kept, in order |
| `CommandPalette.Pushes` | src/components/CommandPalette.jsx:194-207 | one entry per row in order, stopping exactly at the first row whose entry throws |
| `CommandPalette.Take` | src/components/CommandPalette.jsx:246 | `slice(0, n)` keeps a prefix of at most n items, all of them when there are no more |
| `CommandPalette.StockSection` | src/components/CommandPalette.jsx:243-262 | the stock section throws exactly when some row's medication name is not a string, then shows nothing; otherwise it shows the first five matching rows (all of them when fewer), in fetched order, each flagged low exactly when its quantity is below 20 |
| `CommandPalette.RunSection` | src/components/CommandPalette.jsx:105-286 | a section runs only when its table is in the workspace, and its entries carry its category |
| `CommandPalette.SearchAll` | src/components/CommandPalette.jsx:64-305 | a query shorter than 2 gives quick navigation; otherwise the matched tables then the sections, or exactly the placeholder when there are none, so the list is never empty |
| `CommandPalette.SectionScoped` | src/components/CommandPalette.jsx:105-286 | every table a section's entry or button opens is in the workspace |
| `CommandPalette.RunFromScoped` | src/components/CommandPalette.jsx:105-290 | the same holds of the sections run in turn, up to a throw |
| `CommandPalette.NavHitsScoped` | src/components/CommandPalette.jsx:93-103 | navigation entries for workspace tables open only workspace tables |
| `CommandPalette.QuickNavScoped` | src/components/CommandPalette.jsx:308-321 | quick navigation opens only workspace tables |
| `CommandPalette.FoundScoped` | src/components/CommandPalette.jsx:88-290 | the search's entries open only workspace tables |
| `CommandPalette.SearchScoped` | src/components/CommandPalette.jsx:64-305 | whatever the query and the backend answer, no entry or button of the palette opens a table outside the workspace |
| `CommandPalette.StockHits` | src/components/CommandPalette.jsx:244-248 | at most 5 stock entries, each a fetched row whose medication name contains the term, flagged low exactly when its quantity is below 20 |
| `CommandPalette.ThrowEndsSearch` | src/components/CommandPalette.jsx:87-290 | after a section throws, no entry of a later section appears |
| `CommandPalette.Execute` | src/components/CommandPalette.jsx:57-62 | an entry with an action opens its table; the placeholder's null action does nothing |
| `CommandPalette.HandleKey` | src/components/CommandPalette.jsx:31-44 | ArrowDown selects min(i+1, n-1), ArrowUp max(i-1, 0), Enter runs the selected entry only when it exists, Escape closes |
| `CommandPalette.ArrowsKeepSelection` | src/components/CommandPalette.jsx:33-43 | arrows keep a valid selection inside the list and ArrowUp never goes below 0; Enter on the placeholder does nothing |
| `CommandPalette.GroupResultsSpec` | src/components/CommandPalette.jsx:338-343 | the groups are the categories in order of first appearance ("Autres" for none), each holding exactly its results in order |
| `CommandPalette.GroupingKeepsAll` | src/components/CommandPalette.jsx:338-343 | the groups hold as many entries as the results, so none is lost |
| `Shell.RestoreSession` | src/App.jsx:39-48 | a session is restored exactly when the saved text is non-empty JSON whose `admin_site` is truthy with a positive length; restoring throws exactly on text that is not JSON (lone-surrogate escapes included, see below) or on `null` |
| `Shell.StoredText` | src/App.jsx:166 | the saved text is the user's JSON text |
| `Shell.RestoreAfterLogin` | src/App.jsx:164-166 | a plain JSON user with sites that signs in is restored unchanged after a reload |
| `Shell.NoSitesNotRestored` | src/App.jsx:43 | a user without sites is not restored after a reload |
| `Shell.SiteIncludes` | src/App.jsx:52-54 | `admin_site?.includes(word)` is false on a missing site, a substring test on text and a member test on an array, and throws on anything else |
| `Shell.Accessible` | src/App.jsx:50-57 | with nobody signed in every workspace is accessible; otherwise a subsequence of the configured ones, or a throw exactly when the sites are of the wrong type |
| `Shell.AccessibleIff` | src/App.jsx:52-54 | the hospital is accessible exactly when the sites include "juvenat", human resources when they include "rh", the central office when they include "bureau" |
| `Shell.ActiveKey` | src/App.jsx:59 | the active key is the requested key when accessible, otherwise the first accessible key, and none exactly when nothing is accessible |
| `Shell.CurrentWorkspace` | src/App.jsx:60 | the shown workspace is the active key's workspace, so an accessible one, or the hospital when none is |
| `Shell.CurrentWorkspaceConfigured` | src/App.jsx:59-60 | the shown workspace is always one of the three configured, and the requested one whenever the user may open it |
| `Shell.NoGrantShowsHospital` | src/App.jsx:55-60 | a user whose sites grant nothing has no workspace but is shown the hospital workspace |
| `Shell.DraggedWidth` | src/App.jsx:100 | the dragged sidebar width always lies in [180, 400] and follows the pointer inside that range |
| `Shell.DraggedWidthMonotone` | src/App.jsx:100 | dragging further right never narrows the sidebar, and a drag back to its start restores any width in range |
| `Shell.Start` | src/App.jsx:38-48 | start-up shows the dashboard of the hospital key with the form and palette closed, and has a user exactly when a session is restored; it throws exactly when restoring does |
| `Shell.Login` | src/App.jsx:164-167 | signing in keeps the user and saves its text, leaving the table and the form as they were |
| `Shell.Logout` | src/App.jsx:195 | signing out leaves no user and no saved session to restore |
| `Shell.ReloadAfterLogin` | src/App.jsx:164-195 | a reload after signing in gives back the same user; a reload after signing out gives none |
| `Shell.ChangeWorkspace` | src/App.jsx:179-182 | changing workspace shows the dashboard and leaves the form as it was |
| `Shell.Navigate` | src/App.jsx:310 | navigating shows the table and closes the palette and the mobile sidebar |
| `Shell.HandleEdit` | src/App.jsx:118-125 | editing opens the form on that record of the current table, with no prefilled data, no locked field and no upsert, and changes nothing else |
| `Shell.HandleCreate` | src/App.jsx:127-135 | creating opens the form on a new record of `options.tableName` or else the current table, with `options.initialData` or else `null`, `options.lockedFields` or else none, and the upsert flag as a boolean; `null` options throw |
| `Shell.FormTable` | src/App.jsx:332 | the form works on its own table when one is set, else on the current table |
| `Shell.CreateFromClick` | src/components/DataTable.jsx:145 | the browser's "new" button, which passes its click event as the options, opens the same form as an edit of no record, on the current table |
| `Shell.Close` | src/App.jsx:337-343 | closing clears the form's table, prefilled data, locks and upsert flag and keeps the edited record |
| `Shell.HandleSave` | src/App.jsx:137-146 | saving closes the form and blanks the table, then the timer puts the same table back |
| `Shell.SaveIsCloseAfterTimer` | src/App.jsx:137-146 | once its timer fires, saving leaves the shell exactly as closing does, and in between nothing is routed |
| `Shell.ShellKey` | src/App.jsx:150-157 | Cmd+K or Ctrl+K opens the palette, Escape closes it, other keys leave it |
| `Shell.ShellKeyRepeat` | src/App.jsx:150-157 | a repeated key press changes nothing further, and after either shortcut the palette's state does not depend on what it was |
| `Shell.ScreenOf` | src/App.jsx:162-170 | without a user the login screen shows; the application shows exactly when there is a user and the screen is not locked |
| `Shell.Route` | src/App.jsx:314-328 | the empty table name shows nothing; a browser is shown only for its own table name |
| `Shell.RouteRoundTrip` | src/App.jsx:315-328 | routing is a bijection between table names and the views it can produce |
| `Shell.RequisitionNavigation` | src/App.jsx:318-320 | the list's "new" and the form's "back" reach the submission form and the list, and other names reach the browser |
| `Dashboard.LowStockCount` | src/components/Dashboard.jsx:37 | the low-stock count is the number of stock rows below 20, at most the number of rows and 0 without stock data |
| `Dashboard.LowRowIsMarked` | src/components/Dashboard.jsx:37 | the dashboard counts exactly the rows the table browser marks as low |
| `Dashboard.LowStockBoundary` | src/components/Dashboard.jsx:37 | a single row holding the number n is counted exactly when n < 20; of a row holding 19 and one holding 20, only the first is counted |
| `Dashboard.FetchStats` | src/components/Dashboard.jsx:27-52 | each count is the answer's when truthy and exactly 0 otherwise, the low-stock figure is the low-stock count of the stock answer, and a failed fetch keeps the initial zeros |
| `Dashboard.AlertIff` | src/components/Dashboard.jsx:145-149 | the alert shows exactly when the stock answer holds a row below 20, and never without stock data |
| `Dashboard.QuickActionsBrowse` | src/components/Dashboard.jsx:112-120 | every quick action opens the table browser on its table |

## Left out

- Backend calls are parameters, not a service. This covers the `select`, `insert`, `update` and `delete` queries, `maybeSingle`, and the `ilike`, `order` and `limit` filters applied on the server. The palette sections take the rows the backend answered.
- `DataTable.handleDelete` (`src/components/DataTable.jsx:91-100`) is not modelled. It is a confirm dialog, a backend delete and a refetch.
- Timers and event plumbing are not modelled:
  - the idle lock (`src/App.jsx:64-78`);
  - the palette's 300 ms debounce;
  - the 1.5 s return after a submission;
  - focus and scroll effects;
  - listener registration.

  The 10 ms save timer is modelled only as the two states around it.
- Rendering is not modelled: palette titles and subtitles (dates, joined text), icons, colours, the theme, sidebar collapse, the resize handle, and the mobile overlay.
- `src/components/LockScreen.jsx`, `src/components/Sidebar.jsx`, the login component and the two backend test scripts are not part of this model.
- Numbers are exact reals. Binary floating-point rounding is not modelled, and neither are `Infinity` or exponent formatting. The dashboard's inventory value (a sum of float products) is left out.
- Case mapping (`toLowerCase`, `toUpperCase`) covers only ASCII letters, the Latin-1 letters with a one-letter partner (U+00C0 to U+00DE and U+00E0 to U+00FE, except U+00D7 and U+00F7), and the pairs Œ/œ and Ÿ/ÿ. Every other character is left as it is. This includes 'ß', which JavaScript upper-cases to "SS", 'µ', which it upper-cases to 'Μ', and every letter of other scripts.
- `CommandPalette.FormatTableName`: the length-keeping fallback follows that mapping, so for a name starting with 'ß' it keeps the length where JavaScript adds one character.
- `JsNumber.StringToNumber`: `Number()` of text is modelled for decimal literals only. Hexadecimal (`0x10`), binary (`0b1`) and octal (`0o7`) literals and `Infinity` read as NaN here, where JavaScript gives 16, 1, 7 and Infinity. So `quantite < 20` (`Inventory.LowQuantity`) is false on such text in the model, while JavaScript finds `"0x10"` and `"-Infinity"` low.
- Own-property order: objects keep their properties in the order they were added. JavaScript lists integer-like keys (`"0"`, `"12"`) first, in ascending numeric order, before the other keys in insertion order. This applies to `Object.keys`, spread and `JSON.parse`. For rows with such keys, the column order of `DataTable.Load`, the field order of `EntityForm.InitialFields` and the property order of `Requisitions.ParseArticles`'s values differ from JavaScript's.
- `DataTable.FirstPagesArePrefix`: the table is one fixed sequence that every page request slices. The query asks for `.range(from, to)` with no `.order()`, and the database does not promise the same row order across separate requests. So "none skipped or repeated" holds only when the backend returns a stable order.
- `Json.Parse`: a string is a sequence of Unicode scalar values, so a `\u` escape of a lone surrogate (`"\ud800"`, or a high half not followed by a low half) cannot be represented and makes the parse fail. `JSON.parse` accepts such text and returns a string holding that one code unit.
- `Shell.RestoreSession`: because of that, saved session text holding a lone-surrogate escape counts as not JSON and restoring throws, where `JSON.parse` succeeds.
- `Requisitions.ParseArticles`: for the same reason, stored line items holding a lone-surrogate escape give `[]`, where `JSON.parse` returns the parsed value.
- Property lookups that reach the prototype chain (a table named `constructor`, say) are not modelled.
- `Shell.SiteIncludes`: an `admin_site` object with its own `includes` function is treated as throwing, since the model has no function values.
- `Json.ParseStringify`: values with fractions are not claimed to round-trip, because the model writes numbers with at most 20 fraction digits.
- `Csv.DocumentRoundTrip`: header names are written unquoted, so it needs names without commas, line feeds or a leading quote. The reader uses LF, as the export does, not the CRLF of rule 2 of RFC 4180.
- `Shell.DraggedWidth`: the pointer positions are numbers, so NaN widths are not considered.
- `EntityForm.Persist`: the upsert's lookup-then-write is modelled as one step against the table as it stands. Interleavings with other clients are not modelled.
