/** The requisition submission form: a draft line item, the list it is added
    to, and the record inserted on submit. */
module SubmitRequisition {
  import opened Wrappers
  import opened JsText
  import opened JsNumber
  import opened JsValue
  import opened Json
  import opened Requisitions

  /** One line item: a name, a quantity and a packaging note. */
  datatype Article = Article(nom: string, quantite: int, presentation: string)

  /** The object stored for a line item, with its properties in this order. */
  function ArticleValue(a: Article): (v: Value)
    ensures v.Obj? && Keys(v.fields) == ["nom", "quantite", "presentation"]
    ensures Get(v.fields, "nom") == Str(a.nom)
    ensures Get(v.fields, "quantite") == Num(a.quantite as real)
    ensures Get(v.fields, "presentation") == Str(a.presentation)
  {
    var fs := [Field("nom", Str(a.nom)), Field("quantite", Num(a.quantite as real)), Field("presentation", Str(a.presentation))];
    assert fs[1..] == [fs[1], fs[2]] && fs[1..][1..] == [fs[2]];
    Obj(fs)
  }

  function ArticleValues(items: seq<Article>): (vs: seq<Value>)
    ensures |vs| == |items|
    ensures forall i :: 0 <= i < |items| ==> vs[i] == ArticleValue(items[i])
  {
    seq(|items|, i requires 0 <= i < |items| => ArticleValue(items[i]))
  }

  /** The inputs of the line item being typed. The quantity starts as the
      number 1 and holds the input's text once edited. */
  datatype Draft = Draft(nom: string, quantite: Value, presentation: string)

  const EmptyDraft: Draft := Draft("", Num(1.0), "")

  /** `parseInt(quantite) || 1`: a quantity that reads as 0 or as no number at
      all becomes 1, so a stored quantity is never 0. */
  function Quantity(q: Value): (n: int)
    ensures n != 0
  {
    match ParseInt(ToStr(q), Auto)
    case Some(m) => if m == 0 then 1 else m
    case None => 1
  }

  /** Text that `parseInt` reads as 0, or cannot read at all, gives the
      default quantity 1. */
  lemma QuantityFallback(q: Value)
    requires ParseInt(ToStr(q), Auto) == None || ParseInt(ToStr(q), Auto) == Some(0)
    ensures Quantity(q) == 1
  {
  }

  /** A typed integer other than 0 is stored as that integer. */
  lemma QuantityOfTyped(i: int)
    requires i != 0
    ensures Quantity(Str(IntToDecimal(i))) == i
  {
    var text := IntToDecimal(i);
    ParseIntOfDecimal(i, "", Auto);
    assert text + "" == text;
    QuantityOfText(text, i);
  }

  /** Text that `parseInt` reads as a number other than 0 gives that number. */
  lemma QuantityOfText(text: string, m: int)
    requires m != 0 && ParseInt(text, Auto) == Some(m)
    ensures Quantity(Str(text)) == m
  {
    assert ToStr(Str(text)) == text;
    assert ParseInt(ToStr(Str(text)), Auto) == Some(m);
  }

  /** The untouched input adds one of the item. */
  lemma QuantityOfDefault()
    ensures Quantity(EmptyDraft.quantite) == 1
  {
    NumberToStringOfInt(1);
    QuantityOfTyped(1);
  }

  /** `handleAddArticle`: a blank name adds nothing and keeps the draft; any
      other name appends one item with the trimmed texts and clears the draft. */
  function AddArticle(draft: Draft, items: seq<Article>): (r: (Draft, seq<Article>))
    ensures IsBlank(draft.nom) ==> r == (draft, items)
    ensures !IsBlank(draft.nom) ==>
      r.0 == EmptyDraft && |r.1| == |items| + 1 && r.1[..|items|] == items &&
      r.1[|items|] == Article(Trim(draft.nom), Quantity(draft.quantite), Trim(draft.presentation))
    ensures !IsBlank(draft.nom) ==> r.1[|items|].nom != [] && r.1[|items|].quantite != 0
  {
    TrimEmptyIffBlank(draft.nom);
    if Trim(draft.nom) == "" then (draft, items)
    else (EmptyDraft, items + [Article(Trim(draft.nom), Quantity(draft.quantite), Trim(draft.presentation))])
  }

  /** `articles.filter((_, i) => i !== index)` over the positions from `j` on. */
  function KeepOthers(items: seq<Article>, index: int, j: nat): (r: seq<Article>)
    requires j <= |items|
    decreases |items| - j
  {
    if j == |items| then []
    else (if j != index then [items[j]] else []) + KeepOthers(items, index, j + 1)
  }

  /** `handleRemoveArticle(index)`. */
  function RemoveArticle(items: seq<Article>, index: int): seq<Article> {
    KeepOthers(items, index, 0)
  }

  /** Removing drops exactly the item at `index` and keeps the rest in order; an
      index outside the list changes nothing. */
  lemma RemoveArticleSpec(items: seq<Article>, index: int)
    ensures 0 <= index < |items| ==> RemoveArticle(items, index) == items[..index] + items[index + 1..]
    ensures !(0 <= index < |items|) ==> RemoveArticle(items, index) == items
  {
    KeepOthersSpec(items, index, 0);
    assert items[0..] == items;
    if 0 <= index < |items| {
      assert items[0..index] == items[..index];
    }
  }

  lemma {:induction false} KeepOthersSpec(items: seq<Article>, index: int, j: nat)
    requires j <= |items|
    ensures j <= index < |items| ==> KeepOthers(items, index, j) == items[j..index] + items[index + 1..]
    ensures !(j <= index < |items|) ==> KeepOthers(items, index, j) == items[j..]
    decreases |items| - j
  {
    if j < |items| {
      KeepOthersSpec(items, index, j + 1);
      if j == index {
        assert items[j..index] == [];
      } else if j < index < |items| {
        assert items[j..index] == [items[j]] + items[j + 1..index];
      } else {
        assert items[j..] == [items[j]] + items[j + 1..];
      }
    }
  }

  /** The submit button: disabled while sending, with no item or with no
      personnel chosen. */
  predicate SubmitDisabled(loading: bool, items: seq<Article>, personnelId: string) {
    loading || |items| == 0 || personnelId == ""
  }

  /** What `handleSubmit` does: the record it sends to the backend, if it gets
      that far, whether the form reports success, and the alert shown. */
  datatype Submission = Submission(sent: Option<Row>, success: bool, alert: Option<string>)

  const MissingInputAlert := "Veuillez sélectionner un personnel et ajouter au moins un article."

  /** The alert's prefix when the backend rejects the insert. */
  const SubmitFailedAlert := "Erreur lors de la soumission: "

  /** The record inserted for a requisition. */
  function NewRequisition(personnelId: string, items: seq<Article>): (r: Row)
    ensures Keys(r) == ["personnel", "article", "etat"]
    ensures Get(r, "personnel") == Str(personnelId)
    ensures StatusOf(r) == Some(Pending)
  {
    var r := [Field("personnel", Str(personnelId)),
      Field("article", Str(Stringify(Arr(ArticleValues(items))).value)),
      Field("etat", Str(Key(Pending)))];
    assert r[1..] == [r[1], r[2]] && r[1..][1..] == [r[2]];
    r
  }

  /** `handleSubmit`: `fault` is the error the backend reports for the insert. */
  function Submit(personnelId: string, items: seq<Article>, fault: Option<string>): (s: Submission)
    ensures s.sent.None? <==> SubmitDisabled(false, items, personnelId)
    ensures s.sent.None? ==> !s.success && s.alert == Some(MissingInputAlert)
    ensures s.sent.Some? ==> s.sent.value == NewRequisition(personnelId, items)
    ensures s.success <==> s.sent.Some? && fault.None?
    ensures s.success ==> s.alert.None?
    ensures s.sent.Some? && fault.Some? ==> s.alert == Some(SubmitFailedAlert + fault.value)
  {
    if personnelId == "" || |items| == 0 then Submission(None, false, Some(MissingInputAlert))
    else
      match fault
      case Some(msg) => Submission(Some(NewRequisition(personnelId, items)), false, Some(SubmitFailedAlert + msg))
      case None => Submission(Some(NewRequisition(personnelId, items)), true, None)
  }

  /** Stored line items are clean values: whole quantities and distinct names. */
  lemma ArticlesClean(items: seq<Article>)
    ensures Clean(Arr(ArticleValues(items)))
  {
    var vs := ArticleValues(items);
    forall i | 0 <= i < |vs| ensures Clean(vs[i]) {
      var a := items[i];
      assert IsIntegral(a.quantite as real) by {
        assert (a.quantite as real).Floor == a.quantite;
      }
    }
  }

  /** Reading the inserted record back with `parseArticles` gives exactly the
      submitted line items. */
  lemma SubmittedArticlesRoundTrip(personnelId: string, items: seq<Article>)
    ensures ParseArticles(Get(NewRequisition(personnelId, items), "article")) == Arr(ArticleValues(items))
  {
    var v := Arr(ArticleValues(items));
    ArticlesClean(items);
    ParseStringify(v);
    ArticleField(personnelId, items);
    ArticlesOfJson(Stringify(v).value, v);
  }

  lemma ArticleField(personnelId: string, items: seq<Article>)
    ensures Get(NewRequisition(personnelId, items), "article") == Str(Stringify(Arr(ArticleValues(items))).value)
    ensures Stringify(Arr(ArticleValues(items))).value != []
  {
    var r := NewRequisition(personnelId, items);
    assert r[1..] == [r[1], r[2]];
    assert Stringify(Arr(ArticleValues(items))).value[0] == '[';
  }

  lemma ArticlesOfJson(text: string, v: Value)
    requires text != [] && Parse(text) == Some(v)
    ensures ParseArticles(Str(text)) == v
  {
    var article := Str(text);
    assert Truthy(article) && article.Str? && article.s == text;
    ParsedArticles(article);
  }

  /** `parseArticles` on JSON text: the parsed value. */
  lemma ParsedArticles(article: Value)
    requires article.Str? && article.s != []
    ensures Parse(article.s).Some? ==> ParseArticles(article) == Parse(article.s).value
  {
  }
}
