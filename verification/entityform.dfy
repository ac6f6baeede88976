/** The generic record editor: which fields it shows, the form data it starts
    from, how an input change is stored, the record it saves and how it saves
    it against a backend table. */
module EntityForm {
  import opened Wrappers
  import opened Seqs
  import opened JsText
  import opened JsNumber
  import opened JsValue

  /** `tableTemplates[tableName] || []`: the fields offered when creating. */
  function Template(table: string): (fs: seq<string>)
    ensures table == "stock" ==> fs == ["medicaments_id", "institution_id", "quantite", "prix_vente"]
    ensures table !in {"stock", "patients", "medicaments", "personnel", "timesheet"} ==> fs == []
  {
    if table == "stock" then ["medicaments_id", "institution_id", "quantite", "prix_vente"]
    else if table == "patients" then ["prenom", "nom", "date_naissance", "sexe", "telephone"]
    else if table == "medicaments" then ["Nom", "description", "Type", "barcode", "Nom_generique", "Pharmacie"]
    else if table == "personnel" then ["id", "Nom", "Prenom", "role", "Function", "service", "Mail", "Phone"]
    else if table == "timesheet" then ["id_employe", "activites", "date", "nombre_heure"]
    else []
  }

  /** Columns never edited on an existing record. */
  const Hidden: set<string> := {"id", "created_at", "updated_at", "medicament_nom", "medicaments"}

  function Editable(): string -> bool {
    k => k !in Hidden
  }

  /** `getInitialFields()`: an existing record's own keys in order minus the
      hidden ones; for a new record the table's template. */
  function InitialFields(table: string, entity: Option<Row>): (fs: seq<string>)
    ensures entity.Some? ==> SubsequenceOf(fs, Keys(entity.value))
    ensures entity.Some? ==> forall k :: k in fs <==> k in Keys(entity.value) && k !in Hidden
    ensures entity.None? ==> fs == Template(table)
  {
    match entity
    case Some(e) =>
      FilterSpec(Keys(e), Editable());
      Filter(Keys(e), Editable())
    case None => Template(table)
  }

  /** No template but the personnel one offers `id`, and an existing record's
      fields never include it. */
  lemma FieldsWithId(table: string, entity: Option<Row>)
    ensures "id" in InitialFields(table, entity) <==> entity.None? && table == "personnel"
  {
  }

  /** `{ ...(initialData || {}), ...(entity || {}) }`. */
  function InitialFormData(initialData: Option<Row>, entity: Option<Row>): Row {
    Merge(Merge([], initialData.GetOr([])), entity.GetOr([]))
  }

  /** The record's values override the preset values on shared keys. */
  lemma InitialFormDataGet(initialData: Option<Row>, entity: Option<Row>, k: string)
    requires initialData.Some? ==> UniqueKeys(initialData.value)
    requires entity.Some? ==> UniqueKeys(entity.value)
    ensures var fd := InitialFormData(initialData, entity);
      Get(fd, k) == (if entity.Some? && Has(entity.value, k) then Get(entity.value, k)
                     else if initialData.Some? then Get(initialData.value, k)
                     else Undefined)
    ensures UniqueKeys(InitialFormData(initialData, entity))
  {
    var a := initialData.GetOr([]);
    var b := entity.GetOr([]);
    MergeGet([], a, k);
    MergeGet(Merge([], a), b, k);
    MergeUnique([], a);
    MergeUnique(Merge([], a), b);
  }

  /** Fields whose text input is stored as a number. */
  const NumericFields: set<string> := {"quantite", "prix_vente", "nombre_heure", "institution_id"}

  /** The stored value of a text input: numeric fields store `null` for empty
      text, `parseFloat` when the text has a `.` and `parseInt(value, 10)`
      otherwise; NaN when nothing is read. Other fields store the text. */
  function Coerce(name: string, value: string): (v: Value)
    ensures name !in NumericFields ==> v == Str(value)
    ensures name in NumericFields && value == "" ==> v == Null
    ensures name in NumericFields ==> v.Null? || v.Num? || v.NaN?
  {
    if name !in NumericFields then Str(value)
    else if value == "" then Null
    else if Includes(value, ".") then
      match ParseFloat(value)
      case None => NaN
      case Some(q) => Num(q)
    else
      match ParseInt(value, Ten)
      case None => NaN
      case Some(i) => Num(i as real)
  }

  /** Integer text in a numeric field is stored as that integer. */
  lemma CoerceInteger(name: string, i: int)
    requires name in NumericFields
    ensures Coerce(name, IntToDecimal(i)) == Num(i as real)
  {
    var t := IntToDecimal(i);
    assert !Includes(t, ".") by {
      IncludesIff(t, ".");
      if exists j: nat :: OccursAt(t, ".", j) {
        var j: nat :| OccursAt(t, ".", j);
        assert t[j] == '.';
        NoPointInDecimal(i, j);
      }
    }
    ParseIntOfDecimal(i, "", Ten);
    assert t + "" == t;
  }

  lemma NoPointInDecimal(i: int, j: nat)
    requires j < |IntToDecimal(i)|
    ensures IntToDecimal(i)[j] != '.'
  {
    if i < 0 {
      if j > 0 {
        assert IntToDecimal(i)[j] == NatToDecimal(-i)[j - 1];
      }
    }
  }

  /** Decimal text `w.x` in a numeric field is stored as its exact value. */
  lemma CoerceDecimal(name: string, w: string, x: string)
    requires name in NumericFields && AllDigits(w) && AllDigits(x) && w != []
    ensures Coerce(name, w + "." + x) == Num(Scale(DecimalValue(w + x), -|x|))
  {
    var t := w + "." + x;
    assert OccursAt(t, ".", |w|);
    IncludesIff(t, ".");
    ParseFloatOfDecimal(w, x);
  }

  /** A change event of the form's inputs. */
  datatype ChangeEvent = ChangeEvent(name: string, value: string, checkbox: bool, checked: bool)

  /** `handleChange(e)`: only the named key changes; a checkbox stores whether
      it is checked. */
  function HandleChange(fd: Row, e: ChangeEvent): (r: Row)
    ensures Get(r, e.name) == (if e.checkbox then Bool(e.checked) else Coerce(e.name, e.value))
    ensures forall k :: k != e.name ==> Get(r, k) == Get(fd, k) && (Has(r, k) <==> Has(fd, k))
    ensures Has(fd, e.name) ==> Keys(r) == Keys(fd)
    ensures UniqueKeys(fd) ==> UniqueKeys(r)
  {
    Set(fd, e.name, if e.checkbox then Bool(e.checked) else Coerce(e.name, e.value))
  }

  /** `dataToSave` before the stock default: every field whose form value is
      not `undefined`, in field order. */
  function Collect(fields: seq<string>, fd: Row): (r: Row)
    ensures forall k :: Has(r, k) <==> k in fields && !Get(fd, k).Undefined?
    ensures forall k :: Get(r, k) == (if k in fields then Get(fd, k) else Undefined)
    ensures UniqueKeys(r)
  {
    if fields == [] then []
    else
      var init := fields[..|fields| - 1];
      var f := fields[|fields| - 1];
      var acc := Collect(init, fd);
      assert forall k :: k in fields <==> k in init || k == f;
      if Get(fd, f).Undefined? then acc else Set(acc, f, Get(fd, f))
  }

  /** The record sent on save: the collected fields, and for stock an
      `institution_id` of 1 when none was given or it is `null`. */
  function Payload(table: string, fields: seq<string>, fd: Row): (r: Row)
    ensures UniqueKeys(r)
    ensures forall k :: k != "institution_id" ==> Get(r, k) == Get(Collect(fields, fd), k) && (Has(r, k) <==> Has(Collect(fields, fd), k))
    ensures table == "stock" ==> Has(r, "institution_id") && !Get(r, "institution_id").Null?
    ensures table != "stock" ==> r == Collect(fields, fd)
  {
    var p := Collect(fields, fd);
    var inst := Get(p, "institution_id");
    if table == "stock" && (inst.Undefined? || inst.Null?) then Set(p, "institution_id", Num(1.0)) else p
  }

  /** The stock default applies exactly when the form gives no usable
      institution; otherwise the form's value is kept. */
  lemma StockInstitution(fields: seq<string>, fd: Row)
    ensures var given := if "institution_id" in fields then Get(fd, "institution_id") else Undefined;
      Get(Payload("stock", fields, fd), "institution_id") ==
        (if given.Undefined? || given.Null? then Num(1.0) else given)
  {
  }

  /** A stock record never carries an `id` of its own. */
  lemma StockPayloadHasNoId(entity: Option<Row>, fd: Row)
    ensures !Has(Payload("stock", InitialFields("stock", entity), fd), "id")
  {
    FieldsWithId("stock", entity);
  }

  // ------------------------------------------------------------- persistence

  /** How a save reaches the backend. */
  datatype Plan = UpdateById(id: Value) | Upsert | Insert

  /** An existing record with a truthy id is updated by that id; otherwise a
      stock record with the upsert option looks for its pair first; anything
      else is inserted, the upsert option being ignored off the stock table. */
  function Decide(table: string, entity: Option<Row>, upsert: bool): (p: Plan)
    ensures p.UpdateById? <==> entity.Some? && Truthy(Get(entity.value, "id"))
    ensures p.UpdateById? ==> p.id == Get(entity.value, "id")
    ensures p.Upsert? <==> !(entity.Some? && Truthy(Get(entity.value, "id"))) && table == "stock" && upsert
    ensures table != "stock" && !p.UpdateById? ==> p == Insert
  {
    if entity.Some? && Truthy(Get(entity.value, "id")) then UpdateById(Get(entity.value, "id"))
    else if table == "stock" && upsert then Upsert
    else Insert
  }

  /** A backend table as the rows it holds. */
  type Rows = seq<Row>

  /** SQL equality on a column: `null` (and a missing value) equals nothing. */
  predicate ColumnEq(a: Value, b: Value) {
    a == b && !a.Null? && !a.Undefined?
  }

  function PairOf(r: Row): (Value, Value) {
    (Get(r, "medicaments_id"), Get(r, "institution_id"))
  }

  /** A row whose medication and institution are both set. */
  predicate Keyed(r: Row) {
    var (m, i) := PairOf(r);
    !m.Null? && !m.Undefined? && !i.Null? && !i.Undefined?
  }

  /** `.eq('medicaments_id', m).eq('institution_id', i)`. */
  function PairFilter(m: Value, i: Value): Row -> bool {
    r => ColumnEq(Get(r, "medicaments_id"), m) && ColumnEq(Get(r, "institution_id"), i)
  }

  /** Identity-column ids: positive numbers, all different. */
  predicate IdsOk(rows: Rows) {
    (forall a :: 0 <= a < |rows| ==> Get(rows[a], "id").Num? && Get(rows[a], "id").n >= 1.0) &&
    (forall a, b :: 0 <= a < b < |rows| ==> Get(rows[a], "id") != Get(rows[b], "id"))
  }

  /** No two rows hold the same set (medication, institution) pair. */
  predicate NoDuplicatePair(rows: Rows) {
    forall a, b :: 0 <= a < b < |rows| && Keyed(rows[a]) ==> PairOf(rows[a]) != PairOf(rows[b])
  }

  /** The largest numeric id in use, 0 for an empty table. */
  function MaxId(rows: Rows): (m: real)
    ensures m >= 0.0
    ensures forall a :: 0 <= a < |rows| && Get(rows[a], "id").Num? ==> Get(rows[a], "id").n <= m
  {
    if rows == [] then 0.0
    else
      var rest := MaxId(rows[1..]);
      var id := Get(rows[0], "id");
      var here := if id.Num? then id.n else 0.0;
      assert forall a :: 1 <= a < |rows| ==> rows[a] == rows[1..][a - 1];
      if here > rest then here else rest
  }

  /** The id the backend gives the next inserted row: above every id in use. */
  function NextId(rows: Rows): (id: Value)
    ensures id.Num? && id.n >= 1.0 && Truthy(id)
    ensures forall a :: 0 <= a < |rows| ==> Get(rows[a], "id") != id
  {
    Num(MaxId(rows) + 1.0)
  }

  /** `.update(data).eq('id', id)`: matching rows take the new values. */
  function UpdateRows(rows: Rows, id: Value, data: Row): (r: Rows)
    ensures |r| == |rows|
    ensures forall a :: 0 <= a < |rows| ==> r[a] == (if ColumnEq(Get(rows[a], "id"), id) then Merge(rows[a], data) else rows[a])
  {
    seq(|rows|, a requires 0 <= a < |rows| => if ColumnEq(Get(rows[a], "id"), id) then Merge(rows[a], data) else rows[a])
  }

  /** `.insert([data])`: the row is appended, with a new id unless it has one. */
  function InsertRow(rows: Rows, data: Row): (r: Rows)
    ensures |r| == |rows| + 1 && r[..|rows|] == rows
    ensures !Has(data, "id") ==> Get(r[|rows|], "id") == NextId(rows)
    ensures forall k :: k != "id" ==> Get(r[|rows|], k) == Get(data, k)
  {
    if Has(data, "id") then rows + [data] else rows + [Set(data, "id", NextId(rows))]
  }

  /** What a save leaves behind: the table, whether `onSave` ran, and the alert. */
  datatype Saved = Saved(rows: Rows, saved: bool, alert: Option<string>)

  /** The message of the backend when `maybeSingle` finds several rows. */
  const SeveralRows := "JSON object requested, multiple (or no) rows returned"

  /** The write's outcome: it counts as saved exactly when the backend
      reports no error; a saved write keeps the new rows and alerts nothing,
      a failed one keeps the old rows and alerts the backend's message. */
  function Written(rows: Rows, rows': Rows, writeFault: Option<string>): (s: Saved)
    ensures s.saved <==> writeFault.None?
    ensures s.saved <==> s.alert.None?
    ensures s.rows == if s.saved then rows' else rows
    ensures s.alert.Some? ==> writeFault.Some? && s.alert.value == "Error: " + writeFault.value
  {
    match writeFault
    case Some(msg) => Saved(rows, false, Some("Error: " + msg))
    case None => Saved(rows', true, None)
  }

  /** The rows of the stock table holding the record's pair. */
  function PairMatches(rows: Rows, data: Row): (ms: Rows)
    ensures SubsequenceOf(ms, rows)
    ensures forall r :: r in ms <==> r in rows && PairFilter(Get(data, "medicaments_id"), Get(data, "institution_id"))(r)
  {
    var p := PairFilter(Get(data, "medicaments_id"), Get(data, "institution_id"));
    FilterSpec(rows, p);
    Filter(rows, p)
  }

  /** `handleSubmit`'s backend part on the table named `table`. `lookupFault`
      and `writeFault` are the errors the backend reports for the pair lookup
      and for the write; a failed step leaves the table as it was. */
  function Persist(rows: Rows, table: string, entity: Option<Row>, upsert: bool, data: Row,
                   lookupFault: Option<string>, writeFault: Option<string>): (s: Saved)
    ensures s.saved <==> s.alert.None?
    ensures !s.saved ==> s.rows == rows
    ensures s.saved ==> writeFault.None?
    ensures Decide(table, entity, upsert).UpdateById? ==>
      (s.saved <==> writeFault.None?) &&
      (s.saved ==> s.rows == UpdateRows(rows, Decide(table, entity, upsert).id, data))
    ensures Decide(table, entity, upsert).Insert? ==>
      (s.saved <==> writeFault.None?) && (s.saved ==> s.rows == InsertRow(rows, data))
    ensures Decide(table, entity, upsert).Upsert? && s.saved ==>
      lookupFault.None? && |PairMatches(rows, data)| <= 1
    ensures Decide(table, entity, upsert).Upsert? && lookupFault.None? && |PairMatches(rows, data)| > 1 ==>
      s.alert == Some("Error: " + SeveralRows)
    ensures Decide(table, entity, upsert).Upsert? && lookupFault.None? && writeFault.None? && |PairMatches(rows, data)| <= 1 ==>
      s.saved &&
      s.rows == if |PairMatches(rows, data)| == 1 && Truthy(Get(PairMatches(rows, data)[0], "id"))
        then UpdateRows(rows, Get(PairMatches(rows, data)[0], "id"), data)
        else InsertRow(rows, data)
  {
    match Decide(table, entity, upsert)
    case UpdateById(id) => Written(rows, UpdateRows(rows, id, data), writeFault)
    case Insert => Written(rows, InsertRow(rows, data), writeFault)
    case Upsert =>
      if lookupFault.Some? then Saved(rows, false, Some("Error: " + lookupFault.value))
      else
        var ms := PairMatches(rows, data);
        if |ms| > 1 then Saved(rows, false, Some("Error: " + SeveralRows))
        else if |ms| == 1 && Truthy(Get(ms[0], "id")) then
          Written(rows, UpdateRows(rows, Get(ms[0], "id"), data), writeFault)
        else Written(rows, InsertRow(rows, data), writeFault)
  }

  /** Both table invariants only look at each row's pair and id. */
  lemma InvariantsByPairAndId(rows: Rows, rows': Rows)
    requires |rows'| == |rows|
    requires forall a :: 0 <= a < |rows| ==> PairOf(rows'[a]) == PairOf(rows[a]) && Get(rows'[a], "id") == Get(rows[a], "id")
    ensures IdsOk(rows) ==> IdsOk(rows')
    ensures NoDuplicatePair(rows) ==> NoDuplicatePair(rows')
  {
    assert forall a :: 0 <= a < |rows| ==> (Keyed(rows'[a]) <==> Keyed(rows[a]));
  }

  /** Updating the row found by its pair rewrites neither its pair nor its id. */
  lemma UpdateFoundRow(rows: Rows, data: Row, c: nat)
    requires IdsOk(rows) && UniqueKeys(data) && !Has(data, "id")
    requires c < |rows| && PairFilter(Get(data, "medicaments_id"), Get(data, "institution_id"))(rows[c])
    ensures var rows' := UpdateRows(rows, Get(rows[c], "id"), data);
      |rows'| == |rows| &&
      forall a :: 0 <= a < |rows| ==> PairOf(rows'[a]) == PairOf(rows[a]) && Get(rows'[a], "id") == Get(rows[a], "id")
  {
    var id := Get(rows[c], "id");
    var rows' := UpdateRows(rows, id, data);
    forall a | 0 <= a < |rows|
      ensures PairOf(rows'[a]) == PairOf(rows[a]) && Get(rows'[a], "id") == Get(rows[a], "id")
    {
      if ColumnEq(Get(rows[a], "id"), id) {
        assert a == c;
        MergeGet(rows[a], data, "id");
        MergeGet(rows[a], data, "medicaments_id");
        MergeGet(rows[a], data, "institution_id");
      }
    }
  }

  /** A keyed row sharing the record's pair is one the pair lookup finds. */
  lemma KeyedPairMatches(rows: Rows, data: Row, a: nat)
    requires a < |rows| && Keyed(rows[a]) && PairOf(rows[a]) == PairOf(data)
    ensures rows[a] in PairMatches(rows, data)
  {
    assert PairFilter(Get(data, "medicaments_id"), Get(data, "institution_id"))(rows[a]);
  }

  /** Inserting a record whose pair no row holds keeps the pairs distinct. */
  lemma InsertUnmatched(rows: Rows, data: Row)
    requires IdsOk(rows) && NoDuplicatePair(rows) && !Has(data, "id")
    requires |PairMatches(rows, data)| == 0
    ensures IdsOk(InsertRow(rows, data)) && NoDuplicatePair(InsertRow(rows, data))
  {
    var rows' := InsertRow(rows, data);
    var n := |rows|;
    var last := rows'[n];
    assert rows' == rows + [last] by {
      assert rows'[..n] == rows;
    }
    assert PairOf(last) == PairOf(data) by {
      assert Get(last, "medicaments_id") == Get(data, "medicaments_id");
      assert Get(last, "institution_id") == Get(data, "institution_id");
    }
    forall a | 0 <= a < n && Keyed(rows[a]) ensures PairOf(rows[a]) != PairOf(last) {
      if PairOf(rows[a]) == PairOf(data) {
        KeyedPairMatches(rows, data, a);
      }
    }
    AppendKeepsInvariants(rows, last);
  }

  /** A row with a fresh positive id and a pair no keyed row holds can be
      appended without breaking either table invariant. */
  lemma AppendKeepsInvariants(rows: Rows, last: Row)
    requires IdsOk(rows) && NoDuplicatePair(rows)
    requires Get(last, "id").Num? && Get(last, "id").n >= 1.0
    requires forall a :: 0 <= a < |rows| ==> Get(rows[a], "id") != Get(last, "id")
    requires forall a :: 0 <= a < |rows| && Keyed(rows[a]) ==> PairOf(rows[a]) != PairOf(last)
    ensures IdsOk(rows + [last]) && NoDuplicatePair(rows + [last])
  {
    var rows' := rows + [last];
    assert forall a :: 0 <= a < |rows| ==> rows'[a] == rows[a];
    assert rows'[|rows|] == last;
  }

  /** An upsert of a stock record, run against the table as it stands, never
      gives two rows the same (medication, institution) pair. */
  lemma UpsertKeepsPairsDistinct(rows: Rows, entity: Option<Row>, data: Row,
                                 lookupFault: Option<string>, writeFault: Option<string>)
    requires IdsOk(rows) && NoDuplicatePair(rows)
    requires UniqueKeys(data) && !Has(data, "id")
    requires Decide("stock", entity, true) == Upsert
    ensures var s := Persist(rows, "stock", entity, true, data, lookupFault, writeFault);
      IdsOk(s.rows) && NoDuplicatePair(s.rows)
  {
    var s := Persist(rows, "stock", entity, true, data, lookupFault, writeFault);
    if lookupFault.None? && writeFault.None? {
      var ms := PairMatches(rows, data);
      if |ms| == 1 {
        assert ms[0] in rows;
        var c :| 0 <= c < |rows| && rows[c] == ms[0];
        assert Truthy(Get(ms[0], "id"));
        UpdateFoundRow(rows, data, c);
        InvariantsByPairAndId(rows, s.rows);
      } else if |ms| == 0 {
        InsertUnmatched(rows, data);
      }
    }
  }

  /** A successful upsert really writes: afterwards some row holds the
      record's (medication, institution) pair, and the table grows by one row
      exactly when no row with an id held the pair. */
  lemma UpsertStoresPair(rows: Rows, entity: Option<Row>, data: Row,
                         lookupFault: Option<string>, writeFault: Option<string>)
    requires UniqueKeys(data)
    requires Decide("stock", entity, true) == Upsert
    ensures var s := Persist(rows, "stock", entity, true, data, lookupFault, writeFault);
      s.saved ==> exists a :: 0 <= a < |s.rows| && PairOf(s.rows[a]) == PairOf(data)
    ensures var s := Persist(rows, "stock", entity, true, data, lookupFault, writeFault);
      var ms := PairMatches(rows, data);
      s.saved ==> |s.rows| == |rows| + (if |ms| == 1 && Truthy(Get(ms[0], "id")) then 0 else 1)
  {
    var s := Persist(rows, "stock", entity, true, data, lookupFault, writeFault);
    if s.saved {
      var ms := PairMatches(rows, data);
      if |ms| == 1 && Truthy(Get(ms[0], "id")) {
        assert ms[0] in ms;
        var c :| 0 <= c < |rows| && rows[c] == ms[0];
        MatchedRowTakesPair(rows, data, c, Get(ms[0], "id"));
      } else {
        assert PairOf(s.rows[|rows|]) == PairOf(data);
      }
    }
  }

  /** The row the lookup found, updated by its id, holds the record's pair. */
  lemma MatchedRowTakesPair(rows: Rows, data: Row, c: nat, id: Value)
    requires UniqueKeys(data) && c < |rows|
    requires PairFilter(Get(data, "medicaments_id"), Get(data, "institution_id"))(rows[c])
    requires Get(rows[c], "id") == id && Truthy(id)
    ensures PairOf(UpdateRows(rows, id, data)[c]) == PairOf(data)
  {
    assert ColumnEq(Get(rows[c], "id"), id);
    MergeGet(rows[c], data, "medicaments_id");
    MergeGet(rows[c], data, "institution_id");
  }

  /** One "add to stock" request and the backend errors it meets. */
  datatype Request = Request(data: Row, lookupFault: Option<string>, writeFault: Option<string>)

  /** The stock table after upserting the requests one after another. */
  function UpsertAll(rows: Rows, reqs: seq<Request>): Rows
    decreases |reqs|
  {
    if reqs == [] then rows
    else UpsertAll(Persist(rows, "stock", None, true, reqs[0].data, reqs[0].lookupFault, reqs[0].writeFault).rows, reqs[1..])
  }

  /** Run one after another, upserts never duplicate a pair. */
  lemma {:induction false} UpsertAllKeepsPairsDistinct(rows: Rows, reqs: seq<Request>)
    requires IdsOk(rows) && NoDuplicatePair(rows)
    requires forall j :: 0 <= j < |reqs| ==> UniqueKeys(reqs[j].data) && !Has(reqs[j].data, "id")
    ensures IdsOk(UpsertAll(rows, reqs)) && NoDuplicatePair(UpsertAll(rows, reqs))
    decreases |reqs|
  {
    if reqs != [] {
      UpsertKeepsPairsDistinct(rows, None, reqs[0].data, reqs[0].lookupFault, reqs[0].writeFault);
      var next := Persist(rows, "stock", None, true, reqs[0].data, reqs[0].lookupFault, reqs[0].writeFault).rows;
      assert forall j :: 0 <= j < |reqs[1..]| ==> reqs[1..][j] == reqs[j + 1];
      UpsertAllKeepsPairsDistinct(next, reqs[1..]);
    }
  }

  /** Plain inserts give no such guarantee: inserting the same keyed stock
      record twice leaves two rows with one pair. */
  lemma InsertCanDuplicate()
    ensures var data := [Field("medicaments_id", Num(7.0)), Field("institution_id", Num(1.0))];
      var once := Persist([], "stock", None, false, data, None, None).rows;
      var twice := Persist(once, "stock", None, false, data, None, None).rows;
      !NoDuplicatePair(twice)
  {
    var data := [Field("medicaments_id", Num(7.0)), Field("institution_id", Num(1.0))];
    var once := Persist([], "stock", None, false, data, None, None).rows;
    var twice := Persist(once, "stock", None, false, data, None, None).rows;
    assert data[1..] == [data[1]];
    assert Get(data, "medicaments_id") == Num(7.0) && Get(data, "institution_id") == Num(1.0);
    assert !Has(data, "id");
    assert |twice| == 2;
    assert PairOf(twice[0]) == PairOf(data) == PairOf(twice[1]);
  }
}
