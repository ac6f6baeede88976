/** `JSON.stringify` and `JSON.parse` as RFC 8259 defines the text format, over
    the JavaScript values of `JsValue`. The requisition screens store their
    line items with one and read them back with the other. */
module Json {
  import opened Wrappers
  import opened JsText
  import opened JsNumber
  import opened JsValue

  // ---------------------------------------------------------------- encoding

  /** One character of a JSON string literal: quote, backslash and the control
      characters are escaped (section 7 of RFC 8259), as `JSON.stringify` does. */
  function EscapeChar(c: char): string {
    if c == '\"' then "\\\""
    else if c == '\\' then "\\\\"
    else if c == '\U{0008}' then "\\b"
    else if c == '\U{000C}' then "\\f"
    else if c == '\n' then "\\n"
    else if c == '\r' then "\\r"
    else if c == '\t' then "\\t"
    else if (c as int) < 0x20 then "\\u00" + [HexChar(c as int / 16), HexChar(c as int % 16)]
    else [c]
  }

  function EscapeAll(s: string): string {
    if s == [] then "" else EscapeChar(s[0]) + EscapeAll(s[1..])
  }

  function Quote(s: string): string {
    "\"" + EscapeAll(s) + "\""
  }

  /** The JSON text of `v` where it appears inside an array: `undefined` and NaN
      are written as `null`; object properties holding `undefined` are left out. */
  function Encode(v: Value): string
    decreases v, 1
  {
    match v
    case Undefined => "null"
    case Null => "null"
    case Bool(b) => if b then "true" else "false"
    case Num(n) => NumberToString(n)
    case NaN => "null"
    case Str(s) => Quote(s)
    case Arr(items) => "[" + (if items == [] then "" else EncodeItems(v, 0)) + "]"
    case Obj(fields) => "{" + EncodeMembers(v, 0) + "}"
  }

  /** The items of an array from index `i` on, comma separated. */
  function EncodeItems(arr: Value, i: nat): string
    requires arr.Arr? && i < |arr.items|
    decreases arr, 0, |arr.items| - i
  {
    Encode(arr.items[i]) + (if i + 1 == |arr.items| then "" else "," + EncodeItems(arr, i + 1))
  }

  /** The defined properties of an object from index `i` on, comma separated. */
  function EncodeMembers(obj: Value, i: nat): string
    requires obj.Obj? && i <= |obj.fields|
    decreases obj, 0, |obj.fields| - i
  {
    if i == |obj.fields| then ""
    else if obj.fields[i].val.Undefined? then EncodeMembers(obj, i + 1)
    else
      var member := EncodeMember(obj.fields[i].key, obj.fields[i].val);
      var tail := EncodeMembers(obj, i + 1);
      if tail == "" then member else member + "," + tail
  }

  /** One `"name":value` member. */
  function EncodeMember(k: string, v: Value): (r: string)
    ensures r != [] && r[0] == '\"'
    decreases v, 2
  {
    Quote(k) + ":" + Encode(v)
  }

  /** `JSON.stringify(v)`: no text at all for `undefined`. */
  function Stringify(v: Value): (r: Option<string>)
    ensures r.None? <==> v.Undefined?
  {
    if v.Undefined? then None else Some(Encode(v))
  }

  // ---------------------------------------------------------------- decoding

  /** A parse that succeeded: the value and the text after it. */
  datatype Parsed<T> = Parsed(value: T, rest: string)

  predicate IsJsonSpace(c: char) {
    c == ' ' || c == '\t' || c == '\n' || c == '\r'
  }

  function SkipSpace(s: string): (r: string)
    ensures |r| <= |s| && r == s[|s| - |r|..]
  {
    if s != [] && IsJsonSpace(s[0]) then SkipSpace(s[1..]) else s
  }

  function HighSurrogateValue(hi: nat, lo: nat): (c: nat)
    requires 0xD800 <= hi <= 0xDBFF && 0xDC00 <= lo <= 0xDFFF
    ensures 0x10000 <= c <= 0x10FFFF
  {
    0x10000 + (hi - 0xD800) * 0x400 + (lo - 0xDC00)
  }

  /** The escape after a backslash. A `\u` escape of a surrogate must be the
      high half of a pair followed by the low half; the pair is one character. */
  function ParseEscape(s: string): (r: Option<Parsed<char>>)
    ensures r.Some? ==> |r.value.rest| < |s|
  {
    if s == [] then None
    else if s[0] == '\"' then Some(Parsed('\"', s[1..]))
    else if s[0] == '\\' then Some(Parsed('\\', s[1..]))
    else if s[0] == '/' then Some(Parsed('/', s[1..]))
    else if s[0] == 'b' then Some(Parsed('\U{0008}', s[1..]))
    else if s[0] == 'f' then Some(Parsed('\U{000C}', s[1..]))
    else if s[0] == 'n' then Some(Parsed('\n', s[1..]))
    else if s[0] == 'r' then Some(Parsed('\r', s[1..]))
    else if s[0] == 't' then Some(Parsed('\t', s[1..]))
    else if s[0] == 'u' && |s| >= 5 && AllHexDigits(s[1..5]) then
      var cu := HexValue(s[1..5]);
      HexValueBound(s[1..5]);
      assert Pow16(4) == 0x10000;
      if cu < 0xD800 || 0xDFFF < cu then Some(Parsed(cu as char, s[5..]))
      else if cu <= 0xDBFF && |s| >= 11 && s[5] == '\\' && s[6] == 'u' && AllHexDigits(s[7..11]) then
        var lo := HexValue(s[7..11]);
        HexValueBound(s[7..11]);
        if 0xDC00 <= lo <= 0xDFFF then Some(Parsed(HighSurrogateValue(cu, lo) as char, s[11..]))
        else None
      else None
    else None
  }

  lemma {:induction false} HexValueBound(s: string)
    requires AllHexDigits(s)
    ensures HexValue(s) < Pow16(|s|)
  {
    if s != [] {
      HexValueBound(s[..|s| - 1]);
    }
  }

  function Pow16(k: nat): nat {
    if k == 0 then 1 else 16 * Pow16(k - 1)
  }

  /** The body of a string literal after its opening quote, up to and past the
      closing quote. Raw control characters are not allowed. */
  function ParseString(s: string): (r: Option<Parsed<string>>)
    ensures r.Some? ==> |r.value.rest| < |s|
  {
    if s == [] then None
    else if s[0] == '\"' then Some(Parsed("", s[1..]))
    else if s[0] == '\\' then
      match ParseEscape(s[1..])
      case None => None
      case Some(e) =>
        match ParseString(e.rest)
        case None => None
        case Some(p) => Some(Parsed([e.value] + p.value, p.rest))
    else if (s[0] as int) < 0x20 then None
    else
      match ParseString(s[1..])
      case None => None
      case Some(p) => Some(Parsed([s[0]] + p.value, p.rest))
  }

  /** Length of the integer part of a number: `0` alone, or a non-zero digit
      and the digits after it; 0 when there is none. */
  function IntPartLength(b: string): (n: nat)
    ensures n <= |b|
  {
    if b == [] || !IsDigit(b[0]) then 0
    else if b[0] == '0' then 1
    else DigitRun(b)
  }

  /** Length of `.` and at least one digit, or 0 when absent; `None` for a point
      with no digit after it. */
  function FractionLength(s: string): (r: Option<nat>)
    ensures r.Some? ==> r.value <= |s| && (r.value == 0 || r.value >= 2)
  {
    if s != [] && s[0] == '.' then
      var d := DigitRun(s[1..]);
      if d == 0 then None else Some(1 + d)
    else Some(0)
  }

  /** An exponent `e`/`E`, optional sign and at least one digit: its value and
      length, `(0, 0)` when absent; `None` when malformed. */
  function JsonExponent(s: string): (r: Option<(int, nat)>)
    ensures r.Some? ==> r.value.1 <= |s|
  {
    if s != [] && (s[0] == 'e' || s[0] == 'E') then
      var signLen := if |s| > 1 && (s[1] == '+' || s[1] == '-') then 1 else 0;
      var d := DigitRun(s[1 + signLen..]);
      if d == 0 then None
      else
        var v: int := DecimalValue(s[1 + signLen..][..d]);
        Some((if signLen == 1 && s[1] == '-' then -v else v, 1 + signLen + d))
    else Some((0, 0))
  }

  /** A number without its sign: int frac? exp?, as an exact magnitude. */
  function ParseMagnitude(b: string): (r: Option<Parsed<real>>)
    ensures r.Some? ==> |r.value.rest| < |b|
  {
    var a := IntPartLength(b);
    if a == 0 then None
    else
      match FractionLength(b[a..])
      case None => None
      case Some(f) =>
        match JsonExponent(b[a + f..])
        case None => None
        case Some(exp) =>
          var fracDigits := if f == 0 then "" else b[a + 1..a + f];
          var m := DecimalValue(b[..a] + fracDigits);
          Some(Parsed(Scale(m, exp.0 - |fracDigits|), b[a + f + exp.1..]))
  }

  /** A number: `-`? int frac? exp? (section 6 of RFC 8259). */
  function ParseNumber(s: string): (r: Option<Parsed<Value>>)
    ensures r.Some? ==> |r.value.rest| < |s|
  {
    match ParseMagnitude(Unsigned(s))
    case None => None
    case Some(p) => Some(Parsed(Num(if Negative(s) then -p.value else p.value), p.rest))
  }

  predicate Negative(s: string) {
    s != [] && s[0] == '-'
  }

  /** A number's text without its minus sign. */
  function Unsigned(s: string): (u: string)
    ensures |u| <= |s|
  {
    if Negative(s) then s[1..] else s
  }

  /** The sign of a number written with a leading minus. */
  lemma MinusSign(b: string)
    ensures Negative("-" + b) && Unsigned("-" + b) == b
  {
    assert ("-" + b)[1..] == b;
  }

  /** One value, with no white space before it. */
  function ParseValue(s: string): (r: Option<Parsed<Value>>)
    ensures r.Some? ==> |r.value.rest| < |s|
    decreases |s|, 0
  {
    if s == [] then None
    else if s[0] == 'n' then (if StartsWith(s, "null") then Some(Parsed(Null, s[4..])) else None)
    else if s[0] == 't' then (if StartsWith(s, "true") then Some(Parsed(Bool(true), s[4..])) else None)
    else if s[0] == 'f' then (if StartsWith(s, "false") then Some(Parsed(Bool(false), s[5..])) else None)
    else if s[0] == '\"' then
      match ParseString(s[1..])
      case None => None
      case Some(p) => Some(Parsed(Str(p.value), p.rest))
    else if s[0] == '[' then ParseArray(s[1..])
    else if s[0] == '{' then ParseObject(s[1..])
    else if s[0] == '-' || IsDigit(s[0]) then ParseNumber(s)
    else None
  }

  /** An array after its `[`. */
  function ParseArray(s: string): (r: Option<Parsed<Value>>)
    ensures r.Some? ==> |r.value.rest| < |s|
    decreases |s|, 2
  {
    var t := SkipSpace(s);
    if t != [] && t[0] == ']' then Some(Parsed(Arr([]), t[1..]))
    else
      match ParseElements(t)
      case None => None
      case Some(p) => Some(Parsed(Arr(p.value), p.rest))
  }

  /** One or more comma-separated values and the closing `]`. */
  function ParseElements(s: string): (r: Option<Parsed<seq<Value>>>)
    ensures r.Some? ==> |r.value.rest| < |s|
    decreases |s|, 1
  {
    match ParseValue(s)
    case None => None
    case Some(p) =>
      var t := SkipSpace(p.rest);
      if t != [] && t[0] == ']' then Some(Parsed([p.value], t[1..]))
      else if t != [] && t[0] == ',' then
        match ParseElements(SkipSpace(t[1..]))
        case None => None
        case Some(q) => Some(Parsed([p.value] + q.value, q.rest))
      else None
  }

  /** An object after its `{`. A repeated name keeps its first position and
      takes its last value, as `JSON.parse` builds the object. */
  function ParseObject(s: string): (r: Option<Parsed<Value>>)
    ensures r.Some? ==> |r.value.rest| < |s|
    decreases |s|, 3
  {
    var t := SkipSpace(s);
    if t != [] && t[0] == '}' then Some(Parsed(Obj([]), t[1..]))
    else
      match ParseMembers(t)
      case None => None
      case Some(p) => Some(Parsed(Obj(Merge([], p.value)), p.rest))
  }

  /** One or more comma-separated `name: value` members and the closing `}`. */
  function ParseMembers(s: string): (r: Option<Parsed<seq<Field>>>)
    ensures r.Some? ==> |r.value.rest| < |s|
    decreases |s|, 2
  {
    if s == [] || s[0] != '\"' then None
    else
      match ParseString(s[1..])
      case None => None
      case Some(key) =>
        var t := SkipSpace(key.rest);
        if t == [] || t[0] != ':' then None
        else MemberValue(key.value, SkipSpace(t[1..]))
  }

  /** The rest of a member once its name and colon are read: its value, then
      `}` or a comma and the next members. */
  function MemberValue(k: string, t: string): (r: Option<Parsed<seq<Field>>>)
    ensures r.Some? ==> |r.value.rest| < |t|
    decreases |t|, 1
  {
    match ParseValue(t)
    case None => None
    case Some(p) =>
      var u := SkipSpace(p.rest);
      if u != [] && u[0] == '}' then Some(Parsed([Field(k, p.value)], u[1..]))
      else if u != [] && u[0] == ',' then
        match ParseMembers(SkipSpace(u[1..]))
        case None => None
        case Some(q) => Some(Parsed([Field(k, p.value)] + q.value, q.rest))
      else None
  }

  /** `JSON.parse(s)`: one value with optional white space around it; `None`
      where `JSON.parse` throws a SyntaxError, and also on a `\u` escape of a
      lone surrogate, which a string of scalar values cannot hold. */
  function Parse(s: string): Option<Value> {
    match ParseValue(SkipSpace(s))
    case None => None
    case Some(p) => if SkipSpace(p.rest) == [] then Some(p.value) else None
  }

  // -------------------------------------------------------------- round trip

  /** Values that survive `JSON.parse(JSON.stringify(v))` unchanged: no
      `undefined` or NaN anywhere, whole numbers only (the model writes other
      numbers with at most 20 fraction digits), and no repeated property name. */
  predicate Clean(v: Value) {
    match v
    case Undefined => false
    case NaN => false
    case Num(n) => IsIntegral(n)
    case Arr(items) => forall i :: 0 <= i < |items| ==> Clean(items[i])
    case Obj(fields) => UniqueKeys(fields) && forall i :: 0 <= i < |fields| ==> Clean(fields[i].val)
    case _ => true
  }

  /** What may follow a value inside a larger text without extending it. */
  predicate Delimited(rest: string) {
    rest == [] || rest[0] == ',' || rest[0] == ']' || rest[0] == '}'
  }

  lemma HexValueOfFour(a: char, b: char, c: char, d: char)
    requires IsHexDigit(a) && IsHexDigit(b) && IsHexDigit(c) && IsHexDigit(d)
    ensures AllHexDigits([a, b, c, d])
    ensures HexValue([a, b, c, d]) ==
      ((HexDigitValue(a) * 16 + HexDigitValue(b)) * 16 + HexDigitValue(c)) * 16 + HexDigitValue(d)
  {
    assert [a][..0] == [];
    assert HexValue([a]) == HexDigitValue(a);
    assert [a, b][..1] == [a];
    assert HexValue([a, b]) == HexDigitValue(a) * 16 + HexDigitValue(b);
    assert [a, b, c][..2] == [a, b];
    assert HexValue([a, b, c]) == (HexDigitValue(a) * 16 + HexDigitValue(b)) * 16 + HexDigitValue(c);
    assert [a, b, c, d][..3] == [a, b, c];
  }

  /** One escaped character reads back as itself. */
  lemma EscapeCharRoundTrip(c: char, w: string)
    ensures ParseString(EscapeChar(c) + w) ==
      match ParseString(w)
      case None => None
      case Some(p) => Some(Parsed([c] + p.value, p.rest))
  {
    var s := EscapeChar(c) + w;
    if c == '\"' || c == '\\' || c == '\U{0008}' || c == '\U{000C}' || c == '\n' || c == '\r' || c == '\t' {
      assert s[1..] == [EscapeChar(c)[1]] + w;
      assert ParseEscape(s[1..]) == Some(Parsed(c, w));
    } else if (c as int) < 0x20 {
      var hi := HexChar(c as int / 16);
      var lo := HexChar(c as int % 16);
      HexValueOfFour('0', '0', hi, lo);
      assert s[1..] == "u" + ['0', '0', hi, lo] + w;
      assert s[1..][1..5] == ['0', '0', hi, lo];
      assert s[1..][5..] == w;
      assert ParseEscape(s[1..]) == Some(Parsed(c, w));
    } else {
      assert s[1..] == w;
    }
  }

  /** A string literal reads back as the string, whatever follows it. */
  lemma {:induction false} StringRoundTrip(s: string, rest: string)
    ensures ParseString(EscapeAll(s) + "\"" + rest) == Some(Parsed(s, rest))
  {
    if s == [] {
      assert EscapeAll(s) + "\"" + rest == "\"" + rest;
    } else {
      var w := EscapeAll(s[1..]) + "\"" + rest;
      assert EscapeAll(s) + "\"" + rest == EscapeChar(s[0]) + w;
      StringRoundTrip(s[1..], rest);
      EscapeCharRoundTrip(s[0], w);
      assert [s[0]] + s[1..] == s;
    }
  }

  /** The integer part of a shortest decimal spelling is all of it. */
  lemma IntPartOfDecimal(n: nat, rest: string)
    requires Delimited(rest)
    ensures IntPartLength(NatToDecimal(n) + rest) == |NatToDecimal(n)|
  {
    var d := NatToDecimal(n);
    if d[0] != '0' {
      DigitRunOfDigits(d, rest);
    } else {
      assert (d + rest)[0] == '0';
    }
  }

  lemma MagnitudeOfDecimal(n: nat, rest: string)
    requires Delimited(rest)
    ensures ParseMagnitude(NatToDecimal(n) + rest) == Some(Parsed(n as real, rest))
  {
    var d := NatToDecimal(n);
    var b := d + rest;
    IntPartOfDecimal(n, rest);
    assert b[..|d|] == d && b[|d|..] == rest;
    assert FractionLength(rest) == Some(0);
    assert JsonExponent(rest) == Some((0, 0));
    assert d + "" == d;
    DecimalRoundTrip(n);
    assert Scale(n, 0) == n as real;
  }

  /** A whole number written by `JSON.stringify` reads back as that number. */
  lemma NumberValueRoundTrip(n: real, rest: string)
    requires IsIntegral(n) && Delimited(rest)
    ensures ParseValue(Encode(Num(n)) + rest) == Some(Parsed(Num(n), rest))
  {
    if n < 0.0 {
      NegativeWholeRoundTrip(n, rest);
    } else {
      WholeNumberText(n, rest);
      NaturalValueRoundTrip(n, rest);
    }
  }

  lemma NegativeWholeRoundTrip(n: real, rest: string)
    requires n < 0.0 && IsIntegral(n) && Delimited(rest)
    ensures ParseValue(Encode(Num(n)) + rest) == Some(Parsed(Num(n), rest))
  {
    WholeNumberText(n, rest);
    NegativeTextValue(Encode(Num(n)) + rest, -n, rest);
  }

  lemma NegativeTextValue(t: string, q: real, rest: string)
    requires q >= 0.0 && IsIntegral(q) && Delimited(rest)
    requires t == "-" + (NatToDecimal(q.Floor) + rest)
    ensures ParseValue(t) == Some(Parsed(Num(-q), rest))
  {
    NegativeValueRoundTrip(q, rest);
  }

  /** The text of a whole number: its digits, after a minus sign when it is
      negative. */
  lemma WholeNumberText(n: real, rest: string)
    requires IsIntegral(n)
    ensures n < 0.0 ==> IsIntegral(-n) && (-n).Floor >= 0 && Encode(Num(n)) + rest == "-" + (NatToDecimal((-n).Floor) + rest)
    ensures n >= 0.0 ==> n.Floor >= 0 && Encode(Num(n)) + rest == NatToDecimal(n.Floor) + rest
  {
    if n < 0.0 {
      assert (-n).Floor == -n.Floor;
      NonNegativeToStringOfIntegral(-n);
    } else {
      NonNegativeToStringOfIntegral(n);
    }
  }

  /** The digits of a whole non-negative number read back as that number. */
  lemma MagnitudeOfWhole(q: real, rest: string)
    requires q >= 0.0 && IsIntegral(q) && Delimited(rest)
    ensures q.Floor >= 0
    ensures ParseMagnitude(NatToDecimal(q.Floor) + rest) == Some(Parsed(q, rest))
  {
    MagnitudeOfDecimal(q.Floor, rest);
  }

  lemma NaturalValueRoundTrip(q: real, rest: string)
    requires q >= 0.0 && IsIntegral(q) && Delimited(rest)
    ensures q.Floor >= 0
    ensures ParseValue(NatToDecimal(q.Floor) + rest) == Some(Parsed(Num(q), rest))
  {
    var d := NatToDecimal(q.Floor);
    var t := d + rest;
    assert t[0] == d[0] && IsDigit(d[0]);
    MagnitudeOfWhole(q, rest);
    PositiveNumber(t, q, rest);
    ValueOfNumber(t);
  }

  lemma NegativeValueRoundTrip(q: real, rest: string)
    requires q >= 0.0 && IsIntegral(q) && Delimited(rest)
    ensures q.Floor >= 0
    ensures ParseValue("-" + (NatToDecimal(q.Floor) + rest)) == Some(Parsed(Num(-q), rest))
  {
    MagnitudeOfWhole(q, rest);
    NegatedValue(NatToDecimal(q.Floor) + rest, q, rest);
  }

  /** A `-` before a magnitude reads as the negated number. */
  lemma NegatedValue(b: string, q: real, rest: string)
    requires ParseMagnitude(b) == Some(Parsed(q, rest))
    ensures ParseValue("-" + b) == Some(Parsed(Num(-q), rest))
  {
    NegatedNumber(b, q, rest);
    ValueOfNumber("-" + b);
  }

  /** A leading `-` negates the magnitude read after it. */
  lemma NegatedNumber(b: string, q: real, rest: string)
    requires ParseMagnitude(b) == Some(Parsed(q, rest))
    ensures ParseNumber("-" + b) == Some(Parsed(Num(-q), rest))
  {
    MinusSign(b);
  }

  lemma PositiveNumber(b: string, m: real, rest: string)
    requires b != [] && b[0] != '-'
    requires ParseMagnitude(b) == Some(Parsed(m, rest))
    ensures ParseNumber(b) == Some(Parsed(Num(m), rest))
  {
  }

  /** The characters a value's text can start with. */
  predicate StartsValue(c: char) {
    c == 'n' || c == 't' || c == 'f' || c == '\"' || c == '[' || c == '{' || c == '-' || IsDigit(c)
  }

  /** A clean value's text starts as a value does, never with white space or
      a closing bracket. */
  lemma EncodeStart(v: Value)
    requires Clean(v)
    ensures Encode(v) != [] && StartsValue(Encode(v)[0])
    ensures !IsJsonSpace(Encode(v)[0]) && Encode(v)[0] != ']' && Encode(v)[0] != '}'
  {
    if v.Num? {
      NumberToStringOfInt(v.n.Floor);
    }
  }

  // One parser step at a time: each lemma states what a parse function does on
  // a text of a given shape, so that the round trip below never unfolds the
  // whole parser at once.

  lemma SkipNoSpace(x: string)
    requires x != [] && !IsJsonSpace(x[0])
    ensures SkipSpace(x) == x
  {
  }

  lemma ValueOfString(s: string, t: string, r: string)
    requires s != [] && s[0] == '\"' && ParseString(s[1..]) == Some(Parsed(t, r))
    ensures ParseValue(s) == Some(Parsed(Str(t), r))
  {
  }

  lemma ValueOfArray(s: string)
    requires s != [] && s[0] == '['
    ensures ParseValue(s) == ParseArray(s[1..])
  {
  }

  lemma ValueOfObject(s: string)
    requires s != [] && s[0] == '{'
    ensures ParseValue(s) == ParseObject(s[1..])
  {
  }

  lemma ValueOfNumber(s: string)
    requires s != [] && (s[0] == '-' || IsDigit(s[0]))
    ensures ParseValue(s) == ParseNumber(s)
  {
    assert s[0] != 'n' && s[0] != 't' && s[0] != 'f' && s[0] != '\"' && s[0] != '[' && s[0] != '{';
  }

  lemma ArrayOfElements(s: string, vs: seq<Value>, r: string)
    requires s != [] && !IsJsonSpace(s[0]) && s[0] != ']'
    requires ParseElements(s) == Some(Parsed(vs, r))
    ensures ParseArray(s) == Some(Parsed(Arr(vs), r))
  {
    SkipNoSpace(s);
  }

  lemma ObjectOfMembers(s: string, fs: seq<Field>, r: string)
    requires s != [] && s[0] == '\"'
    requires ParseMembers(s) == Some(Parsed(fs, r))
    ensures ParseObject(s) == Some(Parsed(Obj(Merge([], fs)), r))
  {
    SkipNoSpace(s);
  }

  lemma LastElement(s: string, v: Value, r: string)
    requires ParseValue(s) == Some(Parsed(v, "]" + r))
    ensures ParseElements(s) == Some(Parsed([v], r))
  {
    SkipNoSpace("]" + r);
    assert ("]" + r)[1..] == r;
  }

  lemma NextElement(s: string, v: Value, t: string, vs: seq<Value>, r: string)
    requires ParseValue(s) == Some(Parsed(v, "," + t))
    requires t != [] && !IsJsonSpace(t[0])
    requires ParseElements(t) == Some(Parsed(vs, r))
    ensures ParseElements(s) == Some(Parsed([v] + vs, r))
  {
    SkipNoSpace("," + t);
    SkipNoSpace(t);
    assert ("," + t)[1..] == t;
  }

  /** The name and colon of a member, up to the start of its value. */
  lemma MemberName(s: string, k: string, t: string)
    requires s != [] && s[0] == '\"' && ParseString(s[1..]) == Some(Parsed(k, ":" + t))
    requires t != [] && !IsJsonSpace(t[0])
    ensures ParseMembers(s) == MemberValue(k, t)
  {
    SkipNoSpace(":" + t);
    SkipNoSpace(t);
    assert (":" + t)[1..] == t;
  }

  lemma LastMember(k: string, t: string, v: Value, r: string)
    requires t != [] && ParseValue(t) == Some(Parsed(v, "}" + r))
    ensures MemberValue(k, t) == Some(Parsed([Field(k, v)], r))
  {
    SkipNoSpace("}" + r);
    assert ("}" + r)[1..] == r;
  }

  lemma NextMember(k: string, t: string, v: Value, t': string, fs: seq<Field>, r: string)
    requires t != [] && ParseValue(t) == Some(Parsed(v, "," + t'))
    requires t' != [] && !IsJsonSpace(t'[0])
    requires ParseMembers(t') == Some(Parsed(fs, r))
    ensures MemberValue(k, t) == Some(Parsed([Field(k, v)] + fs, r))
  {
    AfterSeparator(',', t');
  }

  /** A separator and unspaced text after it are read as they stand. */
  lemma AfterSeparator(c: char, t: string)
    requires !IsJsonSpace(c) && t != [] && !IsJsonSpace(t[0])
    ensures SkipSpace([c] + t) == [c] + t && ([c] + t)[0] == c && SkipSpace(([c] + t)[1..]) == t
  {
    SkipNoSpace([c] + t);
    assert ([c] + t)[1..] == t;
    SkipNoSpace(t);
  }

  /** `JSON.parse(JSON.stringify(v))` gives back `v` for a clean value; inside
      a larger text the parse stops exactly where the value's text ends. */
  lemma {:induction false} EncodeRoundTrip(v: Value, rest: string)
    requires Clean(v) && Delimited(rest)
    ensures ParseValue(Encode(v) + rest) == Some(Parsed(v, rest))
    decreases v, 2
  {
    var s := Encode(v) + rest;
    match v
    case Null =>
      assert s[..4] == "null" && s[4..] == rest;
    case Bool(b) =>
      if b {
        assert s[..4] == "true" && s[4..] == rest;
      } else {
        assert s[..5] == "false" && s[5..] == rest;
      }
    case Num(n) =>
      NumberValueRoundTrip(n, rest);
    case Str(t) =>
      assert s[1..] == EscapeAll(t) + "\"" + rest;
      StringRoundTrip(t, rest);
      ValueOfString(s, t, rest);
    case Arr(items) =>
      ArrayRoundTrip(v, rest);
    case Obj(fields) =>
      ObjectRoundTrip(v, rest);
  }

  lemma EmptyArray(r: string)
    ensures ParseArray("]" + r) == Some(Parsed(Arr([]), r))
  {
    SkipNoSpace("]" + r);
  }

  lemma EmptyObject(r: string)
    ensures ParseObject("}" + r) == Some(Parsed(Obj([]), r))
  {
    SkipNoSpace("}" + r);
  }

  /** The text of an array or an object followed by `rest`. */
  lemma ContainerShape(v: Value, rest: string)
    requires v.Arr? || v.Obj?
    ensures v.Arr? && v.items == [] ==> Encode(v) + rest == "[" + ("]" + rest)
    ensures v.Arr? && v.items != [] ==> Encode(v) + rest == "[" + (EncodeItems(v, 0) + "]" + rest)
    ensures v.Obj? ==> Encode(v) + rest == "{" + (EncodeMembers(v, 0) + "}" + rest)
  {
  }

  lemma {:induction false} ArrayRoundTrip(v: Value, rest: string)
    requires v.Arr? && Clean(v) && Delimited(rest)
    ensures ParseValue(Encode(v) + rest) == Some(Parsed(v, rest))
    decreases v, 1
  {
    var s := Encode(v) + rest;
    ContainerShape(v, rest);
    ValueOfArray(s);
    if v.items == [] {
      assert s[1..] == "]" + rest;
      EmptyArray(rest);
    } else {
      assert s[1..] == EncodeItems(v, 0) + "]" + rest;
      ElementsRoundTrip(v, rest);
    }
  }

  lemma {:induction false} ElementsRoundTrip(v: Value, rest: string)
    requires v.Arr? && v.items != [] && Clean(v) && Delimited(rest)
    ensures ParseArray(EncodeItems(v, 0) + "]" + rest) == Some(Parsed(v, rest))
    decreases v, 0, |v.items| + 1
  {
    var inner := EncodeItems(v, 0) + "]" + rest;
    assert Clean(v.items[0]);
    EncodeStart(v.items[0]);
    ItemsShape(v, 0, rest);
    assert inner[0] == Encode(v.items[0])[0];
    ItemsRoundTrip(v, 0, rest);
    assert v.items[0..] == v.items;
    ArrayOfElements(inner, v.items, rest);
  }

  lemma {:induction false} ObjectRoundTrip(v: Value, rest: string)
    requires v.Obj? && Clean(v) && Delimited(rest)
    ensures ParseValue(Encode(v) + rest) == Some(Parsed(v, rest))
    decreases v, 1
  {
    var s := Encode(v) + rest;
    ContainerShape(v, rest);
    ValueOfObject(s);
    assert s[1..] == EncodeMembers(v, 0) + "}" + rest;
    if v.fields == [] {
      assert EncodeMembers(v, 0) + "}" + rest == "}" + rest;
      EmptyObject(rest);
    } else {
      FieldsRoundTrip(v, rest);
    }
  }

  lemma {:induction false} FieldsRoundTrip(v: Value, rest: string)
    requires v.Obj? && v.fields != [] && Clean(v) && Delimited(rest)
    ensures ParseObject(EncodeMembers(v, 0) + "}" + rest) == Some(Parsed(v, rest))
    decreases v, 0, |v.fields| + 1
  {
    var inner := EncodeMembers(v, 0) + "}" + rest;
    assert Clean(v.fields[0].val);
    MemberStart(v, 0);
    assert inner[0] == '\"';
    MembersRoundTrip(v, 0, rest);
    assert v.fields[0..] == v.fields;
    ObjectOfMembers(inner, v.fields, rest);
    assert [] + v.fields == v.fields;
    MergeFresh([], v.fields);
  }

  /** In a clean object the member list from `i` on starts with a quote. */
  lemma MemberStart(obj: Value, i: nat)
    requires obj.Obj? && i < |obj.fields| && Clean(obj.fields[i].val)
    ensures EncodeMembers(obj, i) != [] && EncodeMembers(obj, i)[0] == '\"'
  {
  }

  /** The text of the items from `i` on: the first item, then `]` or a comma
      and the items after it. */
  lemma ItemsShape(arr: Value, i: nat, rest: string)
    requires arr.Arr? && i < |arr.items|
    ensures i + 1 == |arr.items| ==>
      EncodeItems(arr, i) + "]" + rest == Encode(arr.items[i]) + ("]" + rest)
    ensures i + 1 < |arr.items| ==>
      EncodeItems(arr, i) + "]" + rest == Encode(arr.items[i]) + ("," + (EncodeItems(arr, i + 1) + "]" + rest))
  {
    var a := Encode(arr.items[i]);
    if i + 1 == |arr.items| {
      Regroup(a, "", "", "]", rest);
    } else {
      Regroup(a, ",", EncodeItems(arr, i + 1), "]", rest);
    }
  }

  lemma SliceCons<T>(xs: seq<T>, i: nat)
    requires i < |xs|
    ensures xs[i..] == [xs[i]] + xs[i + 1..]
    ensures i + 1 == |xs| ==> xs[i..] == [xs[i]]
  {
  }

  /** Regrouping a concatenation, stated once over plain strings. */
  lemma Regroup(a: string, sep: string, b: string, close: string, rest: string)
    ensures (a + (sep + b)) + close + rest == a + (sep + (b + close + rest))
  {
  }

  lemma {:induction false} ItemsRoundTrip(arr: Value, i: nat, rest: string)
    requires arr.Arr? && i < |arr.items| && Clean(arr) && Delimited(rest)
    ensures ParseElements(EncodeItems(arr, i) + "]" + rest) == Some(Parsed(arr.items[i..], rest))
    decreases arr, 0, |arr.items| - i
  {
    var items := arr.items;
    var s := EncodeItems(arr, i) + "]" + rest;
    assert Clean(items[i]);
    ItemsShape(arr, i, rest);
    if i + 1 == |items| {
      EncodeRoundTrip(items[i], "]" + rest);
      LastElement(s, items[i], rest);
      SliceCons(items, i);
    } else {
      var tail := EncodeItems(arr, i + 1) + "]" + rest;
      EncodeRoundTrip(items[i], "," + tail);
      assert Clean(items[i + 1]);
      EncodeStart(items[i + 1]);
      ItemsShape(arr, i + 1, rest);
      assert tail[0] == Encode(items[i + 1])[0];
      ItemsRoundTrip(arr, i + 1, rest);
      NextElement(s, items[i], tail, items[i + 1..], rest);
      SliceCons(items, i);
    }
  }

  /** The text of the members from `i` on, when none of them is `undefined`. */
  lemma MembersShape(obj: Value, i: nat, rest: string)
    requires obj.Obj? && i < |obj.fields| && !obj.fields[i].val.Undefined?
    requires i + 1 < |obj.fields| ==> !obj.fields[i + 1].val.Undefined?
    ensures i + 1 == |obj.fields| ==>
      EncodeMembers(obj, i) + "}" + rest == EncodeMember(obj.fields[i].key, obj.fields[i].val) + ("}" + rest)
    ensures i + 1 < |obj.fields| ==>
      EncodeMembers(obj, i) + "}" + rest ==
        EncodeMember(obj.fields[i].key, obj.fields[i].val) + ("," + (EncodeMembers(obj, i + 1) + "}" + rest))
  {
    var m := EncodeMember(obj.fields[i].key, obj.fields[i].val);
    if i + 1 < |obj.fields| {
      var tail := EncodeMembers(obj, i + 1);
      assert tail != "";
      assert EncodeMembers(obj, i) == m + "," + tail;
      assert m + "," + tail == m + ("," + tail);
      Regroup(m, ",", tail, "}", rest);
    } else {
      assert EncodeMembers(obj, i) == m;
    }
  }

  /** The text of one member followed by `after`, piece by piece. */
  lemma MemberShape(k: string, v: Value, after: string)
    ensures EncodeMember(k, v) + after == "\"" + (EscapeAll(k) + "\"" + (":" + (Encode(v) + after)))
  {
    Spell(EscapeAll(k), Encode(v), after);
  }

  lemma Spell(e: string, x: string, after: string)
    ensures "\"" + e + "\"" + ":" + x + after == "\"" + (e + "\"" + (":" + (x + after)))
  {
  }

  lemma {:induction false} MembersRoundTrip(obj: Value, i: nat, rest: string)
    requires obj.Obj? && i < |obj.fields| && Clean(obj) && Delimited(rest)
    ensures ParseMembers(EncodeMembers(obj, i) + "}" + rest) == Some(Parsed(obj.fields[i..], rest))
    decreases obj, 0, |obj.fields| - i
  {
    var fields := obj.fields;
    var f := fields[i];
    var after := MembersAfter(obj, i, rest);
    var t := Encode(f.val) + after;
    MemberHead(obj, i, rest);
    assert Clean(f.val);
    EncodeRoundTrip(f.val, after);
    if i + 1 == |fields| {
      LastMember(f.key, t, f.val, rest);
      SliceCons(fields, i);
    } else {
      var tail := EncodeMembers(obj, i + 1) + "}" + rest;
      MemberStart(obj, i + 1);
      assert tail[0] == '\"';
      MembersRoundTrip(obj, i + 1, rest);
      NextMember(f.key, t, f.val, tail, fields[i + 1..], rest);
      SliceCons(fields, i);
    }
  }

  /** What follows the value of member `i`: the closing brace, or a comma and
      the later members. */
  function MembersAfter(obj: Value, i: nat, rest: string): (after: string)
    requires obj.Obj? && i < |obj.fields|
    ensures Delimited(after)
  {
    if i + 1 == |obj.fields| then "}" + rest else "," + (EncodeMembers(obj, i + 1) + "}" + rest)
  }

  /** Reading the members from `i` on starts with member `i`'s name and colon. */
  lemma MemberHead(obj: Value, i: nat, rest: string)
    requires obj.Obj? && i < |obj.fields| && Clean(obj)
    ensures Encode(obj.fields[i].val) != []
    ensures ParseMembers(EncodeMembers(obj, i) + "}" + rest) ==
      MemberValue(obj.fields[i].key, Encode(obj.fields[i].val) + MembersAfter(obj, i, rest))
  {
    var fields := obj.fields;
    var f := fields[i];
    assert Clean(f.val);
    assert i + 1 < |fields| ==> Clean(fields[i + 1].val);
    MembersShape(obj, i, rest);
    var after := MembersAfter(obj, i, rest);
    var t := Encode(f.val) + after;
    var s := EncodeMembers(obj, i) + "}" + rest;
    MemberShape(f.key, f.val, after);
    assert s[1..] == EscapeAll(f.key) + "\"" + (":" + t);
    StringRoundTrip(f.key, ":" + t);
    EncodeStart(f.val);
    assert t[0] == Encode(f.val)[0];
    MemberName(s, f.key, t);
  }

  /** `JSON.parse(JSON.stringify(v))` equals `v` for every clean value. */
  lemma ParseStringify(v: Value)
    requires Clean(v)
    ensures Stringify(v).Some? && Parse(Stringify(v).value) == Some(v)
  {
    var text := Encode(v);
    EncodeStart(v);
    EncodeRoundTrip(v, []);
    assert text + [] == text;
    SkipNoSpace(text);
    assert SkipSpace([]) == [];
  }
}
