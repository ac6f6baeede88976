/** JavaScript values as the components see them: rows fetched from the
    backend, form data, line items. Objects keep their own properties in
    insertion order, because `Object.keys` order decides table columns and the
    fields of the edit form. */
module JsValue {
  import opened Wrappers
  import opened JsText
  import opened JsNumber

  datatype Value =
    | Undefined
    | Null
    | Bool(b: bool)
    | Num(n: real)
    | NaN
    | Str(s: string)
    | Arr(items: seq<Value>)
    | Obj(fields: seq<Field>)

  /** One own property of an object. */
  datatype Field = Field(key: string, val: Value)

  /** A record: the own properties of a plain object, in insertion order. */
  type Row = seq<Field>

  /** `Object.keys(r)`. */
  function Keys(r: Row): (ks: seq<string>)
    ensures |ks| == |r|
    ensures forall i :: 0 <= i < |r| ==> ks[i] == r[i].key
  {
    seq(|r|, i requires 0 <= i < |r| => r[i].key)
  }

  /** `Object.values(r)`. */
  function Values(r: Row): (vs: seq<Value>)
    ensures |vs| == |r|
    ensures forall i :: 0 <= i < |r| ==> vs[i] == r[i].val
  {
    seq(|r|, i requires 0 <= i < |r| => r[i].val)
  }

  /** Own property names are distinct, as they are in every JavaScript object. */
  predicate UniqueKeys(r: Row) {
    forall i, j :: 0 <= i < j < |r| ==> r[i].key != r[j].key
  }

  /** Position of property `k`, or -1. */
  function IndexOf(r: Row, k: string): (i: int)
    ensures -1 <= i < |r|
    ensures i >= 0 ==> r[i].key == k && forall j :: 0 <= j < i ==> r[j].key != k
    ensures i == -1 ==> forall j :: 0 <= j < |r| ==> r[j].key != k
  {
    if r == [] then -1
    else if r[0].key == k then 0
    else
      var i := IndexOf(r[1..], k);
      if i < 0 then -1 else i + 1
  }

  /** `k in r` (own property). */
  predicate Has(r: Row, k: string) {
    IndexOf(r, k) >= 0
  }

  lemma HasIffKey(r: Row, k: string)
    ensures Has(r, k) <==> k in Keys(r)
  {
    if k in Keys(r) {
      var i :| 0 <= i < |r| && Keys(r)[i] == k;
      assert r[i].key == k;
    }
  }

  /** `r[k]`: `undefined` when the property is absent. */
  function Get(r: Row, k: string): Value {
    var i := IndexOf(r, k);
    if i < 0 then Undefined else r[i].val
  }

  /** `{ ...r, [k]: v }`: an existing property keeps its place and takes the new
      value; a new property goes last. Nothing else changes. */
  function Set(r: Row, k: string, v: Value): (r': Row)
    ensures Has(r', k) && Get(r', k) == v
    ensures forall k' :: k' != k ==> Get(r', k') == Get(r, k') && (Has(r', k') <==> Has(r, k'))
    ensures Has(r, k) ==> Keys(r') == Keys(r)
    ensures !Has(r, k) ==> Keys(r') == Keys(r) + [k]
    ensures UniqueKeys(r) ==> UniqueKeys(r')
  {
    var i := IndexOf(r, k);
    if i < 0 then
      var r' := r + [Field(k, v)];
      assert IndexOf(r', k) == |r| by { IndexOfAppend(r, Field(k, v), k); }
      forall k' | k' != k ensures IndexOf(r', k') == IndexOf(r, k') {
        IndexOfAppend(r, Field(k, v), k');
      }
      r'
    else
      var r' := r[i := Field(k, v)];
      assert IndexOf(r', k) == i by { IndexOfSameKeys(r, r', k); }
      forall k' | k' != k ensures IndexOf(r', k') == IndexOf(r, k') {
        IndexOfSameKeys(r, r', k');
      }
      r'
  }

  lemma {:induction false} IndexOfAppend(r: Row, f: Field, k: string)
    ensures IndexOf(r + [f], k) == (if IndexOf(r, k) >= 0 then IndexOf(r, k) else if f.key == k then |r| else -1)
  {
    if r != [] {
      assert (r + [f])[1..] == r[1..] + [f];
      IndexOfAppend(r[1..], f, k);
    }
  }

  lemma {:induction false} IndexOfSameKeys(r: Row, r': Row, k: string)
    requires Keys(r) == Keys(r')
    ensures IndexOf(r, k) == IndexOf(r', k)
  {
    if r != [] {
      assert Keys(r[1..]) == Keys(r)[1..];
      assert Keys(r'[1..]) == Keys(r')[1..];
      IndexOfSameKeys(r[1..], r'[1..], k);
    }
  }

  /** Writing a property twice keeps only the second write. */
  lemma SetTwice(r: Row, k: string, a: Value, b: Value)
    ensures Set(Set(r, k, a), k, b) == Set(r, k, b)
  {
    var i := IndexOf(r, k);
    var r1 := Set(r, k, a);
    if i < 0 {
      IndexOfAppend(r, Field(k, a), k);
      assert IndexOf(r1, k) == |r|;
      assert r1[|r| := Field(k, b)] == r + [Field(k, b)];
    } else {
      IndexOfSameKeys(r, r1, k);
      assert r1[i := Field(k, b)] == r[i := Field(k, b)];
    }
  }

  /** Writing back the value a present property already holds changes nothing. */
  lemma SetSame(r: Row, k: string)
    requires Has(r, k)
    ensures Set(r, k, Get(r, k)) == r
  {
    var i := IndexOf(r, k);
    assert Field(k, r[i].val) == r[i];
  }

  /** `delete r[k]`. */
  function Delete(r: Row, k: string): (r': Row)
    ensures !Has(r', k)
    ensures forall k' :: k' != k ==> Get(r', k') == Get(r, k') && (Has(r', k') <==> Has(r, k'))
    ensures UniqueKeys(r) ==> UniqueKeys(r')
    ensures |r'| <= |r|
  {
    if r == [] then []
    else if r[0].key == k then Delete(r[1..], k)
    else
      var t := Delete(r[1..], k);
      var r' := [r[0]] + t;
      assert r'[1..] == t;
      HeadLookup(r', k);
      forall k' | k' != k ensures Get(r', k') == Get(r, k') && (Has(r', k') <==> Has(r, k')) {
        HeadLookup(r', k');
        HeadLookup(r, k');
      }
      KeepHead(r, t);
      r'
  }

  /** Putting a row's first property back in front of a tail that keeps the
      tail's distinct names, and gains no name, keeps the row's names distinct. */
  lemma KeepHead(r: Row, t: Row)
    requires r != []
    requires UniqueKeys(r[1..]) ==> UniqueKeys(t)
    requires Has(t, r[0].key) ==> Has(r[1..], r[0].key)
    ensures UniqueKeys(r) ==> UniqueKeys([r[0]] + t)
  {
    if UniqueKeys(r) {
      UniqueTail(r);
      ConsUnique(r[0], t);
    }
  }

  /** A property put in front of a row that lacks its name keeps the names
      distinct. */
  lemma ConsUnique(f: Field, t: Row)
    requires UniqueKeys(t) && !Has(t, f.key)
    ensures UniqueKeys([f] + t)
  {
    var r := [f] + t;
    forall j | 0 <= j < |t| ensures t[j].key != f.key {
      HasIffKey(t, f.key);
      assert Keys(t)[j] == t[j].key;
    }
    assert forall j :: 1 <= j < |r| ==> r[j] == t[j - 1];
  }

  /** `{ ...a, ...b }`: every property of `b` set onto `a` in order. */
  function Merge(a: Row, b: Row): Row
    decreases |b|
  {
    if b == [] then a else Merge(Set(a, b[0].key, b[0].val), b[1..])
  }

  /** In a spread of `b` over `a`, `b` wins on shared keys and `a` supplies the
      rest; the result has exactly the keys of both. */
  lemma {:induction false} MergeGet(a: Row, b: Row, k: string)
    requires UniqueKeys(b)
    ensures Get(Merge(a, b), k) == (if Has(b, k) then Get(b, k) else Get(a, k))
    ensures Has(Merge(a, b), k) <==> Has(a, k) || Has(b, k)
    decreases |b|
  {
    if b != [] {
      var a' := Set(a, b[0].key, b[0].val);
      UniqueTail(b);
      HeadLookup(b, k);
      MergeGet(a', b[1..], k);
    }
  }

  /** A lookup in a non-empty row tries its first property, then the rest. */
  lemma HeadLookup(r: Row, k: string)
    requires r != []
    ensures Has(r, k) <==> k == r[0].key || Has(r[1..], k)
    ensures Get(r, k) == if k == r[0].key then r[0].val else Get(r[1..], k)
  {
  }

  lemma UniqueTail(r: Row)
    requires r != [] && UniqueKeys(r)
    ensures UniqueKeys(r[1..]) && !Has(r[1..], r[0].key)
  {
    assert forall j :: 0 <= j < |r[1..]| ==> r[1..][j] == r[j + 1];
  }

  /** `UniqueKeys` survives merging. */
  lemma {:induction false} MergeUnique(a: Row, b: Row)
    requires UniqueKeys(a)
    ensures UniqueKeys(Merge(a, b))
    decreases |b|
  {
    if b != [] {
      MergeUnique(Set(a, b[0].key, b[0].val), b[1..]);
    }
  }

  /** Spreading properties with fresh, distinct names appends them in order. */
  lemma {:induction false} MergeFresh(a: Row, b: Row)
    requires UniqueKeys(a + b)
    ensures Merge(a, b) == a + b
    decreases |b|
  {
    if b != [] {
      assert (a + b)[|a|] == b[0];
      assert IndexOf(a, b[0].key) == -1 by {
        forall j | 0 <= j < |a| ensures a[j].key != b[0].key {
          assert (a + b)[j] == a[j];
        }
      }
      assert Set(a, b[0].key, b[0].val) == a + [b[0]];
      assert (a + [b[0]]) + b[1..] == a + b;
      MergeFresh(a + [b[0]], b[1..]);
    }
  }

  /** JavaScript truthiness: `if (v)`, `v || d`, `!v`. */
  predicate Truthy(v: Value) {
    match v
    case Undefined => false
    case Null => false
    case Bool(b) => b
    case Num(n) => n != 0.0
    case NaN => false
    case Str(s) => s != []
    case Arr(_) => true
    case Obj(_) => true
  }

  /** `a || b`. */
  function Or(a: Value, b: Value): (r: Value)
    ensures Truthy(a) ==> r == a
    ensures !Truthy(a) ==> r == b
  {
    if Truthy(a) then a else b
  }

  /** `String(v)`. */
  function ToStr(v: Value): string
    decreases v, 1
  {
    match v
    case Undefined => "undefined"
    case Null => "null"
    case Bool(b) => if b then "true" else "false"
    case Num(n) => NumberToString(n)
    case NaN => "NaN"
    case Str(s) => s
    case Arr(items) => JoinItems(v, 0)
    case Obj(_) => "[object Object]"
  }

  /** `items.slice(i).join(',')` of an array: `null` and `undefined` items are
      written as empty text. */
  function JoinItems(arr: Value, i: nat): string
    requires arr.Arr? && i <= |arr.items|
    decreases arr, 0, |arr.items| - i
  {
    if i == |arr.items| then ""
    else
      var item := arr.items[i];
      var text := if item.Undefined? || item.Null? then "" else ToStr(item);
      if i + 1 == |arr.items| then text else text + "," + JoinItems(arr, i + 1)
  }

  /** ToNumber(v); `None` is NaN. An array converts through its string form and
      a plain object converts to NaN. */
  function ToNumber(v: Value): Option<real> {
    match v
    case Undefined => None
    case Null => Some(0.0)
    case Bool(b) => Some(if b then 1.0 else 0.0)
    case Num(n) => Some(n)
    case NaN => None
    case Str(s) => StringToNumber(s)
    case Arr(_) => StringToNumber(ToStr(v))
    case Obj(_) => None
  }

  /** `v < k` for a number `k`: NaN compares false. */
  predicate LessThan(v: Value, k: real) {
    match ToNumber(v)
    case Some(n) => n < k
    case None => false
  }

  /** `a === b`. Arrays and objects are compared by identity in JavaScript;
      the model has no identity and treats two such values as different
      objects. */
  predicate StrictEquals(a: Value, b: Value) {
    a == b && !a.NaN? && !a.Arr? && !a.Obj?
  }

  /** `v.k` on a value that is neither `null` nor `undefined` (and `v?.k`,
      which gives `undefined` on those). Array index properties are not
      modelled. */
  function Property(v: Value, k: string): Value {
    match v
    case Obj(fs) => Get(fs, k)
    case Str(s) => if k == "length" then Num(Utf16Length(s) as real) else Undefined
    case Arr(items) => if k == "length" then Num(|items| as real) else Undefined
    case _ => Undefined
  }
}
