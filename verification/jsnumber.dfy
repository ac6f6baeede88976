/** JavaScript number conversions used by the components: `parseInt`,
    `parseFloat`, the string-to-number conversion behind `<`, and `String(n)`.
    A JavaScript number is modelled as an exact real; `None` stands for NaN. */
module JsNumber {
  import opened Wrappers
  import opened JsText

  /** `q * 10^k`, one factor of ten at a time. */
  function Shift(q: real, k: nat): (r: real)
    ensures q >= 0.0 ==> r >= 0.0
  {
    if k == 0 then q else 10.0 * Shift(q, k - 1)
  }

  /** `m * 10^e` as an exact real. */
  function Scale(m: nat, e: int): real
    decreases if e >= 0 then e else -e
  {
    if e == 0 then m as real
    else if e > 0 then 10.0 * Scale(m, e - 1)
    else Scale(m, e + 1) / 10.0
  }

  function Signed(neg: bool, m: int): int {
    if neg then -m else m
  }

  /** The radix `parseInt` was called with: none (a `0x` prefix then selects
      hexadecimal) or an explicit 10. */
  datatype Radix = Auto | Ten

  /** One optional leading sign: whether it was `-`, and the text after it. */
  function SplitSign(t: string): (bool, string) {
    if t != [] && (t[0] == '-' || t[0] == '+') then (t[0] == '-', t[1..]) else (false, t)
  }

  /** The digits `parseInt` reads after the sign: a `0x` prefix selects
      hexadecimal in the automatic mode; no digit at all gives NaN. */
  function ParseUnsignedInt(u: string, radix: Radix): Option<nat> {
    if radix == Auto && |u| >= 2 && u[0] == '0' && (u[1] == 'x' || u[1] == 'X') then
      var h := HexRun(u[2..]);
      if h == 0 then None else Some(HexValue(u[2..][..h]))
    else
      var d := DigitRun(u);
      if d == 0 then None else Some(DecimalValue(u[..d]))
  }

  /** `parseInt(s)` / `parseInt(s, 10)`: leading white space and one sign are
      skipped, then the longest run of digits is read; no digit gives NaN. */
  function ParseInt(s: string, radix: Radix): Option<int> {
    var (neg, u) := SplitSign(TrimStart(s));
    match ParseUnsignedInt(u, radix)
    case None => None
    case Some(m) => Some(Signed(neg, m))
  }

  lemma ParseUnsignedOfDecimal(n: nat, junk: string, radix: Radix)
    requires junk == [] || !IsDigit(junk[0])
    requires radix == Auto ==> junk == [] || (junk[0] != 'x' && junk[0] != 'X')
    ensures ParseUnsignedInt(NatToDecimal(n) + junk, radix) == Some(n)
  {
    var d := NatToDecimal(n);
    var u := d + junk;
    DigitRunOfDigits(d, junk);
    DecimalRoundTrip(n);
    assert u[..|d|] == d;
    if |u| >= 2 && u[0] == '0' {
      assert d == "0";
      assert u[1] == junk[0];
    }
  }

  /** `parseInt` reads back what `String(i)` writes, whatever non-digit text
      follows it (in the automatic radix mode, text starting with `x` after a
      zero would be read as a hexadecimal prefix instead). */
  lemma ParseIntOfDecimal(i: int, junk: string, radix: Radix)
    requires junk == [] || !IsDigit(junk[0])
    requires radix == Auto ==> junk == [] || (junk[0] != 'x' && junk[0] != 'X')
    ensures ParseInt(IntToDecimal(i) + junk, radix) == Some(i)
  {
    var n: nat := if i < 0 then -i else i;
    ParseUnsignedOfDecimal(n, junk, radix);
    SplitSignOfDecimal(i, junk);
  }

  lemma SplitSignOfDecimal(i: int, junk: string)
    ensures TrimStart(IntToDecimal(i) + junk) == IntToDecimal(i) + junk
    ensures SplitSign(IntToDecimal(i) + junk) == (i < 0, NatToDecimal(if i < 0 then -i else i) + junk)
  {
    var s := IntToDecimal(i) + junk;
    TrimStartNoSpace(s);
    if i < 0 {
      assert s == "-" + (NatToDecimal(-i) + junk);
    }
  }

  lemma TrimStartNoSpace(s: string)
    requires s != [] && !IsSpace(s[0])
    ensures TrimStart(s) == s
  {
  }

  /** A numeric literal found at the start of a string: its value and how many
      characters it spans. */
  datatype Scan = Scan(value: real, length: nat)

  /** An optional exponent `e`/`E`, optional sign, at least one digit: its value
      and length; `(0, 0)` when there is no complete exponent. */
  function ScanExponent(s: string): (r: (int, nat))
    ensures r.1 <= |s|
  {
    if s != [] && (s[0] == 'e' || s[0] == 'E') then
      var signLen := if |s| > 1 && (s[1] == '+' || s[1] == '-') then 1 else 0;
      var digits := DigitRun(s[1 + signLen..]);
      if digits == 0 then (0, 0)
      else
        var v: int := DecimalValue(s[1 + signLen..][..digits]);
        (if signLen == 1 && s[1] == '-' then -v else v, 1 + signLen + digits)
    else (0, 0)
  }

  /** The longest prefix of `body` that is an unsigned decimal literal: digits
      with an optional `.` and fraction (at least one digit in all), then an
      optional exponent. */
  function ScanUnsigned(body: string): (r: Option<Scan>)
    ensures r.Some? ==> 0 < r.value.length <= |body|
  {
    var a := DigitRun(body);
    var afterInt := body[a..];
    var hasDot := afterInt != [] && afterInt[0] == '.';
    var f := if hasDot then DigitRun(afterInt[1..]) else 0;
    if a == 0 && f == 0 then None
    else
      var mantLen := a + (if hasDot then 1 + f else 0);
      var digits := body[..a] + (if hasDot then afterInt[1..][..f] else "");
      var exp := ScanExponent(body[mantLen..]);
      Some(Scan(Scale(DecimalValue(digits), exp.0 - f), mantLen + exp.1))
  }

  /** The longest prefix of `u` that is a StrDecimalLiteral: an optional sign and
      an unsigned decimal literal. `Infinity` is not recognised. */
  function ScanDecimal(u: string): (r: Option<Scan>)
    ensures r.Some? ==> 0 < r.value.length <= |u|
  {
    var (neg, body) := SplitSign(u);
    match ScanUnsigned(body)
    case None => None
    case Some(sc) => Some(Scan(if neg then -sc.value else sc.value, |u| - |body| + sc.length))
  }

  /** `parseFloat(s)`: the longest decimal literal after leading white space. */
  function ParseFloat(s: string): Option<real> {
    match ScanDecimal(TrimStart(s))
    case None => None
    case Some(sc) => Some(sc.value)
  }

  /** `Number(s)` (ToNumber on a string): blank is 0, otherwise the trimmed text
      must be one decimal literal in full. Hexadecimal, binary, octal and
      `Infinity` literals are not recognised and read as NaN. */
  function StringToNumber(s: string): Option<real> {
    var t := Trim(s);
    if t == [] then Some(0.0)
    else match ScanDecimal(t)
      case Some(sc) => if sc.length == |t| then Some(sc.value) else None
      case None => None
  }

  /** `parseFloat` of a plain decimal reads its exact value: for digits `w`, `x`
      it gives `w.x`. */
  lemma ParseFloatOfDecimal(w: string, x: string)
    requires AllDigits(w) && AllDigits(x) && w != []
    ensures ParseFloat(w + "." + x) == Some(Scale(DecimalValue(w + x), -|x|))
  {
    var s := w + "." + x;
    assert s[0] == w[0] && IsDigit(w[0]);
    TrimStartNoSpace(s);
    ScanPlainDecimal(w, x);
    FloatOfScan(s);
  }

  /** `parseFloat` on text with no leading white space reads the literal it
      starts with. */
  lemma FloatOfScan(s: string)
    requires TrimStart(s) == s && ScanDecimal(s).Some?
    ensures ParseFloat(s) == Some(ScanDecimal(s).value.value)
  {
  }

  lemma ScanPlainDecimal(w: string, x: string)
    requires AllDigits(w) && AllDigits(x) && w != []
    ensures ScanDecimal(w + "." + x) == Some(Scan(Scale(DecimalValue(w + x), -|x|), |w| + 1 + |x|))
  {
    var u := w + "." + x;
    PointText(w, x);
    ScanUnsignedWithPoint(u, |w|, |x|, w + x);
    assert u[0] == w[0] && IsDigit(w[0]);
    DecimalOfUnsigned(u);
  }

  /** Text that starts with a digit has no sign to split off. */
  lemma DecimalOfUnsigned(u: string)
    requires u != [] && IsDigit(u[0])
    ensures ScanDecimal(u) == ScanUnsigned(u)
  {
    assert SplitSign(u) == (false, u);
  }

  /** `body` holds `a` digits, a point, `f` digits and no exponent, and the
      digits on both sides of the point spell `digits`. */
  predicate PointShape(body: string, a: nat, f: nat, digits: string) {
    a + f > 0 && a < |body| && body[a] == '.' &&
    DigitRun(body) == a && DigitRun(body[a + 1..]) == f &&
    a + 1 + f <= |body| && ScanExponent(body[a + 1 + f..]) == (0, 0) &&
    digits == body[..a] + body[a + 1..][..f]
  }

  /** Where the digit runs of `w.x` end. */
  lemma PointText(w: string, x: string)
    requires AllDigits(w) && AllDigits(x) && w != []
    ensures PointShape(w + "." + x, |w|, |x|, w + x)
  {
    var u := w + "." + x;
    assert u == w + ("." + x);
    DigitRunOfDigits(w, "." + x);
    assert u[|w| + 1..] == x;
    DigitRunOfDigits(x, "");
    assert x + "" == x;
    assert u[|w| + 1 + |x|..] == [];
  }

  /** A literal with a point and no exponent: the digits on both sides, scaled
      down by the number of fraction digits. */
  lemma ScanUnsignedWithPoint(body: string, a: nat, f: nat, digits: string)
    ensures PointShape(body, a, f, digits) ==> ScanUnsigned(body) == Some(Scan(Scale(DecimalValue(digits), 0 - f), a + 1 + f))
  {
    if PointShape(body, a, f, digits) {
      assert body[a..][1..] == body[a + 1..];
    }
  }

  predicate IsIntegral(q: real) {
    q.Floor as real == q
  }

  /** Fewest fraction digits (at most 20) that spell `q` exactly. */
  function FractionDigits(q: real, k: nat): (n: nat)
    requires k <= 20
    ensures k <= n <= 20
    decreases 20 - k
  {
    if k == 20 || IsIntegral(Shift(q, k)) then k else FractionDigits(q, k + 1)
  }

  function Zeros(n: nat): (r: string)
    ensures |r| == n && AllDigits(r)
  {
    if n == 0 then "" else "0" + Zeros(n - 1)
  }

  /** Decimal spelling of a non-negative number, with a point only when needed. */
  function NonNegativeToString(q: real): string
    requires q >= 0.0
  {
    var k := FractionDigits(q, 0);
    var scaled := Shift(q, k).Floor;
    var digits := NatToDecimal(scaled);
    if k == 0 then digits
    else
      var padded := if |digits| <= k then Zeros(k + 1 - |digits|) + digits else digits;
      padded[..|padded| - k] + "." + padded[|padded| - k..]
  }

  /** `String(q)` for a finite number. */
  function NumberToString(q: real): string {
    if q < 0.0 then "-" + NonNegativeToString(-q) else NonNegativeToString(q)
  }

  /** A whole non-negative number is written as its digits alone. */
  lemma NonNegativeToStringOfIntegral(q: real)
    requires q >= 0.0 && IsIntegral(q)
    ensures q.Floor >= 0 && NonNegativeToString(q) == NatToDecimal(q.Floor)
  {
    assert FractionDigits(q, 0) == 0;
  }

  /** An integral number is written exactly as the integer is. */
  lemma NumberToStringOfInt(i: int)
    ensures NumberToString(i as real) == IntToDecimal(i)
  {
    if i < 0 {
      assert -(i as real) == (-i) as real;
      assert FractionDigits((-i) as real, 0) == 0;
    } else {
      assert FractionDigits(i as real, 0) == 0;
    }
  }
}
