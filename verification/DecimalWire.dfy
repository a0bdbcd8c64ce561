/**
 The wire form of exact decimals (common/audit/decimal_scalar.py): the printer
 `decimal_to_wire`, the parser `WireCodec.parse`, and why they are inverse.
 */
module DecimalWire {
  import opened Wrappers
  import opened Text
  import opened Digits

  /** Python's `Decimal`: (-1)^negative * coef * 10^exp, an infinity or a NaN. */
  datatype Decimal =
    | Finite(negative: bool, coef: nat, exp: int)
    | Infinite(negative: bool)
    | NaN(negative: bool, signaling: bool, payload: nat)

  // ---- numeric equality ----

  /** The integer a finite decimal is at the scale 10^m. */
  function Scaled(d: Decimal, m: int): int
    requires d.Finite? && m <= d.exp
  {
    (if d.negative then -1 else 1) * (d.coef * Pow10(d.exp - m))
  }

  function Min(a: int, b: int): int {
    if a <= b then a else b
  }

  /** `a == b` for finite decimals. */
  predicate SameNumber(a: Decimal, b: Decimal)
    requires a.Finite? && b.Finite?
  {
    Scaled(a, Min(a.exp, b.exp)) == Scaled(b, Min(a.exp, b.exp))
  }

  lemma ScaledShift(d: Decimal, m: int, k: int)
    requires d.Finite? && k <= m <= d.exp
    ensures Scaled(d, k) == Scaled(d, m) * Pow10(m - k)
  {
    Pow10Sum(d.exp - m, m - k);
    MulAssoc(d.coef, Pow10(d.exp - m), Pow10(m - k));
    MulAssoc(if d.negative then -1 else 1, d.coef * Pow10(d.exp - m), Pow10(m - k));
  }

  /** Equality may be tested at any common scale. */
  lemma SameAtScale(a: Decimal, b: Decimal, m: int)
    requires a.Finite? && b.Finite? && m <= a.exp && m <= b.exp
    ensures SameNumber(a, b) <==> Scaled(a, m) == Scaled(b, m)
  {
    var top := Min(a.exp, b.exp);
    ScaledShift(a, top, m);
    ScaledShift(b, top, m);
    MulCancel(Scaled(a, top), Scaled(b, top), Pow10(top - m));
  }

  lemma MulPositive(a: int, p: int)
    requires a > 0 && p > 0
    ensures a * p > 0
  {
  }

  lemma MulCancel(x: int, y: int, p: nat)
    requires p > 0
    ensures x * p == y * p <==> x == y
  {
    var gap := x - y;
    assert x * p - y * p == gap * p;
    if gap > 0 {
      MulPositive(gap, p);
    } else if gap < 0 {
      MulPositive(-gap, p);
    }
  }

  /** Moving powers of ten from the exponent into the coefficient keeps the number. */
  lemma SameIfScaled(a: Decimal, b: Decimal)
    requires a.Finite? && b.Finite? && b.exp <= a.exp
    requires b.coef == a.coef * Pow10(a.exp - b.exp)
    requires a.negative == b.negative || a.coef == 0
    ensures SameNumber(a, b) && SameNumber(b, a)
  {
    var unit: int := if b.negative then -1 else 1;
    assert Scaled(b, b.exp) == unit * b.coef;
  }

  lemma SameTransitive(a: Decimal, b: Decimal, c: Decimal)
    requires a.Finite? && b.Finite? && c.Finite? && SameNumber(a, b) && SameNumber(b, c)
    ensures SameNumber(a, c) && SameNumber(b, a)
  {
    var m := Min(a.exp, Min(b.exp, c.exp));
    SameAtScale(a, b, m);
    SameAtScale(b, c, m);
    SameAtScale(a, c, m);
  }

  // ---- printing ----

  function Sign(negative: bool): string {
    if negative then "-" else ""
  }

  /** `format(value, "f")`: fixed-point notation at the decimal's own precision. */
  function Fixed(d: Decimal): string {
    match d
    case Infinite(negative) => Sign(negative) + "Infinity"
    case NaN(negative, signaling, payload) =>
      Sign(negative) + (if signaling then "sNaN" else "NaN") + (if payload == 0 then "" else Numeral(payload))
    case Finite(_, _, _) => Unparse(FixedParts(d))
  }

  /** A sign, the digits before the point, and the digits after it. */
  datatype Parts = Parts(negative: bool, whole: string, fraction: string)

  function PointPart(fraction: string): string {
    if fraction == "" then "" else "." + fraction
  }

  function Unsigned(p: Parts): string {
    p.whole + PointPart(p.fraction)
  }

  function Unparse(p: Parts): string {
    Sign(p.negative) + Unsigned(p)
  }

  function FixedParts(d: Decimal): (p: Parts)
    requires d.Finite?
    ensures AllDigits(p.whole) && AllDigits(p.fraction) && p.whole != ""
  {
    var digits := Numeral(d.coef);
    var exp := if d.coef == 0 && d.exp > 0 then 0 else d.exp;
    var point := |digits| + exp;
    if point < 0 then Parts(d.negative, "0", Zeros(-point) + digits)
    else if point > |digits| then Parts(d.negative, digits + Zeros(point - |digits|), "")
    else
      assert AllDigits(digits[..point]) && AllDigits(digits[point..]);
      Parts(d.negative, if point == 0 then "0" else digits[..point], digits[point..])
  }

  /** `s.rstrip(c)` */
  function RStripChar(s: string, c: char): (r: string)
    ensures r <= s && (r == "" || r[|r| - 1] != c) && forall i :: |r| <= i < |s| ==> s[i] == c
  {
    if s != "" && s[|s| - 1] == c then RStripChar(s[..|s| - 1], c) else s
  }

  function DecimalToWire(d: Decimal): string {
    var fixed := Fixed(d);
    var text := if '.' in fixed then RStripChar(RStripChar(fixed, '0'), '.') else fixed;
    if text == "" || text == "-0" then "0" else text
  }

  // ---- parsing ----

  /** What a JSON payload may hold where a decimal is expected. */
  datatype PyValue = Bool(b: bool) | Float | Int(n: int) | Str(s: string) | Dec(d: Decimal) | Other

  datatype CodecError = FloatError | PayloadError

  function DigitRun(s: string): (n: nat)
    ensures n <= |s| && AllDigits(s[..n]) && (n < |s| ==> !IsDigit(s[n]))
  {
    if s == "" || !IsDigit(s[0]) then 0
    else
      var n := DigitRun(s[1..]);
      assert s[..n + 1] == [s[0]] + s[1..][..n];
      n + 1
  }

  function DropUnderscores(s: string): string {
    if s == "" then ""
    else (if s[0] == '_' then "" else [s[0]]) + DropUnderscores(s[1..])
  }

  /** The exponent part of a numeric string: nothing, or "E", a sign and digits. */
  function ParseExponent(s: string): Option<int> {
    if s == "" then Some(0)
    else if s[0] != 'e' then None
    else
      var negative := |s| > 1 && s[1] == '-';
      var digits := if |s| > 1 && (s[1] == '+' || s[1] == '-') then s[2..] else s[1..];
      if digits == "" || !AllDigits(digits) then None
      else
        var magnitude: int := Value(digits);
        Some(if negative then -magnitude else magnitude)
  }

  /** The digits after a point, if there is one, and the text behind them. */
  function FractionOf(s: string): (r: (string, string))
    ensures AllDigits(r.0)
  {
    if s != "" && s[0] == '.' then
      var j := DigitRun(s[1..]);
      (s[1..][..j], s[1..][j..])
    else ("", s)
  }

  function ParseNumber(negative: bool, s: string): Option<Decimal> {
    var i := DigitRun(s);
    var (fraction, rest) := FractionOf(s[i..]);
    var digits := s[..i] + fraction;
    if digits == "" then None
    else match ParseExponent(rest)
      case None => None
      case Some(e) => Some(Finite(negative, Value(digits), e - |fraction|))
  }

  function ParseNaN(negative: bool, s: string): Option<Decimal> {
    var signaling := s != "" && s[0] == 's';
    var body := if signaling then s[1..] else s;
    if "nan" <= body && AllDigits(body[3..]) then Some(NaN(negative, signaling, Value(body[3..]))) else None
  }

  function ParseUnsigned(negative: bool, s: string): Option<Decimal> {
    if s == "inf" || s == "infinity" then Some(Infinite(negative))
    else if ParseNaN(negative, s).Some? then ParseNaN(negative, s)
    else ParseNumber(negative, s)
  }

  /** `Decimal(text)`, for text in ASCII digits. */
  function ParseText(text: string): Option<Decimal> {
    ParseSigned(Lower(DropUnderscores(Strip(text))))
  }

  function ParseSigned(s: string): Option<Decimal> {
    var signed := s != "" && (s[0] == '+' || s[0] == '-');
    ParseUnsigned(signed && s[0] == '-', if signed then s[1..] else s)
  }

  /** `WireCodec.parse` */
  function Parse(value: PyValue): Result<Decimal, CodecError> {
    match value
    case Str(text) =>
      (match ParseText(text)
       case None => Err(PayloadError)
       case Some(d) => if d.Finite? then Ok(d) else Err(FloatError))
    case _ => Err(FloatError)
  }

  /** `coerce_decimal` */
  function Coerce(value: PyValue, requireFinite: bool): Result<Decimal, CodecError> {
    match value
    case Dec(d) => if requireFinite && !d.Finite? then Err(FloatError) else Ok(d)
    case Int(n) => Ok(Finite(n < 0, if n < 0 then -n else n, 0))
    case _ => Err(FloatError)
  }

  // ---- what is printed ----

  function Stripped(p: Parts): Parts {
    var fraction := RStripChar(p.fraction, '0');
    Parts(p.negative && !(p.whole == "0" && fraction == ""), p.whole, fraction)
  }

  /** The canonical texts: no superfluous zero on either side, and no "-0". */
  predicate Canonical(p: Parts) {
    && NoLeadingZero(p.whole)
    && AllDigits(p.fraction) && (p.fraction != "" ==> p.fraction[|p.fraction| - 1] != '0')
    && !(p.negative && p.whole == "0" && p.fraction == "")
  }

  ghost predicate IsCanonicalText(s: string) {
    exists p :: Canonical(p) && s == Unparse(p)
  }

  lemma {:induction false} RStripSuffix(a: string, b: string, c: char)
    ensures RStripChar(a + b, c) == if RStripChar(b, c) == "" then RStripChar(a, c) else a + RStripChar(b, c)
  {
    if b == "" {
      assert a + b == a;
    } else if b[|b| - 1] == c {
      var b' := b[..|b| - 1];
      assert (a + b)[..|a + b| - 1] == a + b';
      RStripSuffix(a, b', c);
    } else {
      assert RStripChar(b, c) == b;
    }
  }

  /** Stripping the text is stripping its fraction. */
  lemma WireIsStripped(d: Decimal)
    requires d.Finite?
    ensures DecimalToWire(d) == Unparse(Stripped(FixedParts(d)))
  {
    var p := FixedParts(d);
    var fraction := RStripChar(p.fraction, '0');
    var text := Unparse(p.(fraction := fraction));
    if p.fraction == "" {
      NoPoint(p);
    } else {
      HasPoint(p);
      StripFraction(p);
    }
    assert DecimalToWire(d) == if text == "" || text == "-0" then "0" else text;
    SignedZero(p, fraction);
    hide DecimalToWire, Fixed, FixedParts, RStripChar;
    ZeroUnparsed();
  }

  lemma ZeroUnparsed()
    ensures Unparse(Parts(false, "0", "")) == "0"
  {
    assert "0" + PointPart("") == "0" && Sign(false) + "0" == "0";
  }

  /** Stripping acts behind whatever precedes the point. */
  lemma StripBehind(head: string, whole: string, tail: string, c: char)
    requires RStripChar(whole, c) == whole || RStripChar(tail, c) != ""
    requires whole != ""
    ensures RStripChar(head + (whole + tail), c) == head + (whole + RStripChar(tail, c))
  {
    RStripSuffix(whole, tail, c);
    RStripSuffix(head, whole + tail, c);
    assert whole + "" == whole;
  }

  lemma StripFraction(p: Parts)
    requires p.whole != "" && AllDigits(p.whole) && p.fraction != "" && AllDigits(p.fraction)
    ensures RStripChar(RStripChar(Unparse(p), '0'), '.') == Unparse(p.(fraction := RStripChar(p.fraction, '0')))
  {
    var f := RStripChar(p.fraction, '0');
    RStripSuffix(".", p.fraction, '0');
    assert "." + "" == ".";
    StripBehind(Sign(p.negative), p.whole, "." + p.fraction, '0');
    DigitsKept(p.whole);
    DigitsKept(f);
    RStripSuffix(".", f, '.');
    StripBehind(Sign(p.negative), p.whole, "." + f, '.');
  }

  lemma NoPoint(p: Parts)
    requires AllDigits(p.whole) && p.fraction == ""
    ensures '.' !in Unparse(p)
  {
  }

  lemma HasPoint(p: Parts)
    requires p.fraction != ""
    ensures '.' in Unparse(p)
  {
    assert Unparse(p)[|Sign(p.negative)| + |p.whole|] == '.';
  }

  lemma DigitsKept(s: string)
    requires AllDigits(s)
    ensures RStripChar(s, '.') == s
  {
    if s != "" { assert IsDigit(s[|s| - 1]); }
  }

  lemma SignedZero(p: Parts, fraction: string)
    requires AllDigits(p.whole) && p.whole != ""
    ensures var text := Unparse(p.(fraction := fraction));
            text != "" && (text == "-0" <==> p.negative && p.whole == "0" && fraction == "")
  {
    var text := Unparse(p.(fraction := fraction));
    var n := |Sign(p.negative)|;
    assert text[n] == p.whole[0] && IsDigit(p.whole[0]);
    if text == "-0" {
      assert n == 1;
      assert |p.whole| == 1;
    }
  }

  /** The decimal a text of given parts denotes. */
  function Written(p: Parts): (d: Decimal)
    requires AllDigits(p.whole) && AllDigits(p.fraction)
    ensures d.Finite?
  {
    Finite(p.negative, Value(p.whole + p.fraction), -|p.fraction|)
  }

  lemma ScaledUp(d: Decimal)
    requires d.Finite? && d.coef > 0 && d.exp > 0
    ensures Written(FixedParts(d)) == Finite(d.negative, d.coef * Pow10(d.exp), 0)
  {
    var digits := Numeral(d.coef);
    ValueOfNumeral(d.coef);
    ValueConcat(digits, Zeros(d.exp));
    ValueOfZeros(d.exp);
    assert FixedParts(d) == Parts(d.negative, digits + Zeros(d.exp), "");
    assert digits + Zeros(d.exp) + "" == digits + Zeros(d.exp);
  }

  lemma ValueAfterZeros(k: nat, digits: string)
    requires AllDigits(digits)
    ensures Value(Zeros(k) + digits) == Value(digits)
  {
    hide Value, Zeros, Pow10;
    ValueConcat(Zeros(k), digits);
    ValueOfZeros(k);
  }

  lemma LeadingZero(f: string)
    requires AllDigits(f)
    ensures Value("0" + f) == Value(f)
  {
    assert Zeros(1) == "0";
    ValueAfterZeros(1, f);
  }

  lemma ZerosBehindPoint(k: nat, digits: string)
    requires AllDigits(digits)
    ensures var f := Zeros(k) + digits; AllDigits(f) && Value("0" + f) == Value(digits) && |f| == k + |digits|
  {
    hide Value;
    ValueAfterZeros(k, digits);
    LeadingZero(Zeros(k) + digits);
  }

  lemma PointBeforeDigits(d: Decimal)
    requires d.Finite? && |Numeral(d.coef)| + d.exp < 0
    ensures Written(FixedParts(d)) == d.(coef := Value(Numeral(d.coef)))
  {
    hide Numeral, Value, Zeros, AllDigits;
    var k := -(|Numeral(d.coef)| + d.exp);
    ZerosBehindPoint(k, Numeral(d.coef));
    assert FixedParts(d) == Parts(d.negative, "0", Zeros(k) + Numeral(d.coef));
  }

  lemma PointAmongDigits(d: Decimal)
    requires d.Finite? && d.exp <= 0 <= |Numeral(d.coef)| + d.exp
    ensures Written(FixedParts(d)) == d.(coef := Value(Numeral(d.coef)))
  {
    var digits := Numeral(d.coef);
    var point := |digits| + d.exp;
    if point == 0 {
      assert digits[0..] == digits;
      assert FixedParts(d) == Parts(d.negative, "0", digits);
      LeadingZero(digits);
    } else {
      assert FixedParts(d) == Parts(d.negative, digits[..point], digits[point..]);
      assert digits[..point] + digits[point..] == digits;
    }
  }

  lemma PointInserted(d: Decimal)
    requires d.Finite? && d.exp <= 0
    ensures Written(FixedParts(d)) == d
  {
    ValueOfNumeral(d.coef);
    if |Numeral(d.coef)| + d.exp < 0 { PointBeforeDigits(d); } else { PointAmongDigits(d); }
  }

  lemma FixedIsSame(d: Decimal)
    requires d.Finite?
    ensures SameNumber(Written(FixedParts(d)), d)
  {
    if d.exp <= 0 {
      PointInserted(d);
    } else if d.coef > 0 {
      ScaledUp(d);
      SameIfScaled(d, Written(FixedParts(d)));
    } else {
      PointInserted(d.(exp := 0));
      assert FixedParts(d) == FixedParts(d.(exp := 0));
      SameIfScaled(d, d.(exp := 0));
    }
  }

  lemma {:induction false} RStripZeros(s: string)
    ensures RStripChar(s, '0') + Zeros(|s| - |RStripChar(s, '0')|) == s
  {
    if s != "" && s[|s| - 1] == '0' {
      RStripZeros(s[..|s| - 1]);
    } else {
      assert s + Zeros(0) == s;
    }
  }

  lemma StrippedIsSame(p: Parts)
    requires AllDigits(p.whole) && AllDigits(p.fraction)
    ensures AllDigits(Stripped(p).fraction)
    ensures SameNumber(Written(Stripped(p)), Written(p))
  {
    RStripZeros(p.fraction);
    hide Value, Pow10, RStripChar, SameNumber;
    TrimmedValue(p);
    ZeroText();
    SameIfScaled(Written(Stripped(p)), Written(p));
  }

  lemma TrimmedValue(p: Parts)
    requires AllDigits(p.whole) && AllDigits(p.fraction)
    ensures var f := RStripChar(p.fraction, '0');
            && AllDigits(f) && |f| <= |p.fraction|
            && Value(p.whole + p.fraction) == Value(p.whole + f) * Pow10(|p.fraction| - |f|)
  {
    var f := RStripChar(p.fraction, '0');
    var k := |p.fraction| - |f|;
    RStripZeros(p.fraction);
    hide Value, Pow10, RStripChar, Zeros;
    Assoc(p.whole, f, Zeros(k));
    ValueConcat(p.whole + f, Zeros(k));
    ValueOfZeros(k);
  }

  lemma ZeroText()
    ensures Value("0" + "") == 0
  {
    assert "0" + "" == "0" && "0"[..0] == "";
  }

  lemma WireParts(d: Decimal) returns (p: Parts)
    requires d.Finite?
    ensures Canonical(p) && DecimalToWire(d) == Unparse(p) && SameNumber(Written(p), d)
  {
    p := Stripped(FixedParts(d));
    WireIsStripped(d);
    StrippedIsSame(FixedParts(d));
    FixedIsSame(d);
    SameTransitive(Written(p), Written(FixedParts(d)), d);
    WholeIsCanonical(d);
  }

  lemma WholeIsCanonical(d: Decimal)
    requires d.Finite?
    ensures NoLeadingZero(FixedParts(d).whole)
  {
    var digits := Numeral(d.coef);
    var whole := FixedParts(d).whole;
    assert whole[0] == digits[0] || whole == "0";
    if d.coef == 0 { assert |whole| == 1; }
  }

  // ---- reading what was printed ----

  lemma {:induction false} NoUnderscores(s: string)
    requires '_' !in s
    ensures DropUnderscores(s) == s
  {
    if s != "" {
      NoUnderscores(s[1..]);
      assert [s[0]] + s[1..] == s;
    }
  }

  lemma {:induction false} LowerPlain(s: string)
    requires forall i :: 0 <= i < |s| ==> !('A' <= s[i] <= 'Z')
    ensures Lower(s) == s
  {
    if s != "" {
      LowerPlain(s[1..]);
      assert [s[0]] + s[1..] == s;
    }
  }

  lemma {:induction false} LowerConcat(a: string, b: string)
    ensures Lower(a + b) == Lower(a) + Lower(b)
  {
    if a == "" {
      assert a + b == b;
    } else {
      LowerConcat(a[1..], b);
      assert (a + b)[1..] == a[1..] + b && (a + b)[0] == a[0];
      var first := [if 'A' <= a[0] <= 'Z' then (a[0] as int + 32) as char else a[0]];
      Assoc(first, Lower(a[1..]), Lower(b));
    }
  }

  predicate Unpadded(s: string) {
    forall i :: 0 <= i < |s| ==> !IsSpace(s[i]) && s[i] != '_'
  }

  lemma NothingToClean(s: string)
    requires Unpadded(s)
    ensures DropUnderscores(Strip(s)) == s
  {
    assert LStrip(s) == s && RStrip(s) == s;
    NoUnderscores(s);
  }

  /** The sign is taken off a text that has no white space and no underscores. */
  lemma SignIsRead(negative: bool, body: string, lower: string)
    requires Unpadded(body) && Lower(body) == lower
    requires lower != "" && lower[0] != '+' && lower[0] != '-'
    ensures ParseText(Sign(negative) + body) == ParseUnsigned(negative, lower)
  {
    var s := Sign(negative) + lower;
    NothingToClean(Sign(negative) + body);
    LowerPlain(Sign(negative));
    LowerConcat(Sign(negative), body);
    assert s[|Sign(negative)|..] == lower;
  }

  lemma {:induction false} DigitRunIs(a: string, rest: string)
    requires AllDigits(a) && (rest == "" || !IsDigit(rest[0]))
    ensures DigitRun(a + rest) == |a|
  {
    if a == "" {
      assert a + rest == rest;
    } else {
      DigitRunIs(a[1..], rest);
      assert (a + rest)[1..] == a[1..] + rest;
      assert IsDigit(a[0]);
    }
  }

  lemma FractionIs(f: string)
    requires AllDigits(f)
    ensures FractionOf("." + f) == (f, "")
  {
    assert ("." + f)[1..] == f && f + "" == f;
    DigitRunIs(f, "");
    assert f[..|f|] == f && f[|f|..] == "";
  }

  lemma ParseNumberIs(negative: bool, whole: string, rest: string, fraction: string, exponent: string)
    requires AllDigits(whole) && AllDigits(fraction) && whole + fraction != ""
    requires (rest == "" || !IsDigit(rest[0])) && FractionOf(rest) == (fraction, exponent)
    requires ParseExponent(exponent).Some?
    ensures ParseNumber(negative, whole + rest)
         == Some(Finite(negative, Value(whole + fraction), ParseExponent(exponent).value - |fraction|))
  {
    hide ParseExponent, FractionOf, DigitRun, Value, AllDigits, IsDigit;
    DigitRunIs(whole, rest);
    WholeIsSlice(whole, rest);
  }

  lemma WholeIsSlice(a: string, b: string)
    ensures (a + b)[..|a|] == a && (a + b)[|a|..] == b
  {
  }

  lemma ParseNumberOfParts(p: Parts)
    requires p.whole != "" && AllDigits(p.whole) && AllDigits(p.fraction)
    ensures ParseNumber(p.negative, Unsigned(p)) == Some(Written(p))
  {
    hide ParseNumber, FractionOf, PointPart, Value, IsDigit;
    var rest := PointPart(p.fraction);
    assert Unsigned(p) == p.whole + rest;
    assert Written(p) == Finite(p.negative, Value(p.whole + p.fraction), -|p.fraction|);
    hide Unsigned, Written;
    PointPartIsRead(p.fraction);
    ParseNumberIs(p.negative, p.whole, rest, p.fraction, "");
  }

  lemma PointPartIsRead(f: string)
    requires AllDigits(f)
    ensures var rest := PointPart(f); (rest == "" || !IsDigit(rest[0])) && FractionOf(rest) == (f, "")
  {
    FractionIs(f);
  }

  lemma NumbersAreNotNames(negative: bool, body: string)
    requires body != "" && IsDigit(body[0])
    ensures ParseUnsigned(negative, body) == ParseNumber(negative, body)
  {
  }

  lemma PartsArePlain(p: Parts)
    requires p.whole != "" && AllDigits(p.whole) && AllDigits(p.fraction)
    ensures var body := Unsigned(p);
            && body != "" && IsDigit(body[0]) && (forall i :: 0 <= i < |body| ==> IsDigit(body[i]) || body[i] == '.')
  {
    var body := Unsigned(p);
    assert body[0] == p.whole[0];
  }

  lemma SignOfNumberIsRead(negative: bool, body: string)
    requires body != "" && IsDigit(body[0]) && (forall i :: 0 <= i < |body| ==> IsDigit(body[i]) || body[i] == '.')
    ensures ParseText(Sign(negative) + body) == ParseNumber(negative, body)
  {
    LowerPlain(body);
    SignIsRead(negative, body, body);
    NumbersAreNotNames(negative, body);
  }

  /** Every text of digits with at most one inner point is read as it is written. */
  lemma ParseOfParts(p: Parts)
    requires p.whole != "" && AllDigits(p.whole) && AllDigits(p.fraction)
    ensures Parse(Str(Unparse(p))) == Ok(Written(p))
  {
    var body := Unsigned(p);
    PartsArePlain(p);
    ParseNumberOfParts(p);
    calc {
      ParseText(Sign(p.negative) + body);
      { SignOfNumberIsRead(p.negative, body); }
      ParseNumber(p.negative, body);
      Some(Written(p));
    }
  }

  // ---- canonical texts denote distinct numbers ----

  lemma MulAtLeast(a: int, p: int)
    requires a >= 1 && p >= 0
    ensures a * p >= p
  {
  }

  lemma DivModUnique(a: nat, b: nat, r: nat, s: nat, p: nat)
    requires r < p && s < p && a * p + r == b * p + s
    ensures a == b && r == s
  {
    var gap := a - b;
    assert a * p - b * p == gap * p;
    if gap > 0 {
      MulAtLeast(gap, p);
    } else if gap < 0 {
      assert (-gap) * p == -(gap * p);
      MulAtLeast(-gap, p);
    }
  }

  lemma CanonicalZero(p: Parts)
    requires Canonical(p) && Value(p.whole + p.fraction) == 0
    ensures p == Parts(false, "0", "")
  {
    ValueConcat(p.whole, p.fraction);
    if Value(p.whole) > 0 { MulPositive(Value(p.whole), Pow10(|p.fraction|)); }
    NumeralOfValue(p.whole);
  }

  /** With fractions of equal length, equal values mean equal digits. */
  lemma SameLengthUnique(p: Parts, q: Parts)
    requires Canonical(p) && Canonical(q) && |p.fraction| == |q.fraction|
    requires Value(p.whole + p.fraction) == Value(q.whole + q.fraction)
    ensures p.whole == q.whole && p.fraction == q.fraction
  {
    ValueConcat(p.whole, p.fraction);
    ValueConcat(q.whole, q.fraction);
    ValueBound(p.fraction);
    ValueBound(q.fraction);
    DivModUnique(Value(p.whole), Value(q.whole), Value(p.fraction), Value(q.fraction), Pow10(|p.fraction|));
    NumeralOfValue(p.whole);
    NumeralOfValue(q.whole);
    ValueInjective(p.fraction, q.fraction);
  }

  lemma TimesTenEndsInZero(n: int)
    ensures 10 * n % 10 == 0
  {
  }

  lemma TenDivides(v: nat, k: nat)
    requires k > 0
    ensures v * Pow10(k) % 10 == 0
  {
    assert Pow10(k) == 10 * Pow10(k - 1);
    hide Pow10;
    MulTen(v, Pow10(k - 1));
    TimesTenEndsInZero(v * Pow10(k - 1));
  }

  lemma LastDigitShows(q: Parts)
    ensures Canonical(q) && q.fraction != "" ==> Value(q.whole + q.fraction) % 10 != 0
  {
    if Canonical(q) && q.fraction != "" {
      var text := q.whole + q.fraction;
      assert text[|text| - 1] == q.fraction[|q.fraction| - 1];
    }
  }

  /** Equal numbers, the second with more digits behind the point: its digits are those of the first, shifted. */
  lemma DigitsAreShifted(p: Parts, q: Parts, k: nat)
    requires Canonical(p) && Canonical(q) && SameNumber(Written(p), Written(q)) && |q.fraction| == |p.fraction| + k
    ensures Value(q.whole + q.fraction) == Value(p.whole + p.fraction) * Pow10(k)
  {
    hide Value;
    assert Scaled(Written(q), -|q.fraction|) == (if q.negative then -1 else 1) * Value(q.whole + q.fraction);
  }

  lemma FractionLengths(p: Parts, q: Parts)
    requires Canonical(p) && Canonical(q) && SameNumber(Written(p), Written(q))
    ensures |q.fraction| <= |p.fraction|
  {
    var k := |q.fraction| - |p.fraction|;
    if k > 0 {
      DigitsAreShifted(p, q, k);
      TenDivides(Value(p.whole + p.fraction), k);
      hide Canonical, SameNumber, Value, Pow10;
      LastDigitShows(q);
    }
  }

  lemma CanonicalUnique(p: Parts, q: Parts)
    requires Canonical(p) && Canonical(q) && SameNumber(Written(p), Written(q))
    ensures p == q
  {
    SameTransitive(Written(p), Written(q), Written(p));
    FractionLengths(p, q);
    FractionLengths(q, p);
    var v := Value(p.whole + p.fraction);
    assert v == Value(q.whole + q.fraction);
    SameLengthUnique(p, q);
    if v == 0 {
      CanonicalZero(p);
      CanonicalZero(q);
    }
  }

  // ---- infinities and NaNs ----

  /** The names `Decimal` prints, and how the parser sees them. */
  function LowerName(name: string): string {
    if name == "Infinity" then "infinity" else if name == "NaN" then "nan" else "snan"
  }

  lemma NaNFacts()
    ensures Lower("NaN") == "nan" && Unpadded("NaN")
    ensures Lower("sNaN") == "snan" && Unpadded("sNaN")
  {
  }

  lemma InfinityIsClean()
    ensures Unpadded("Infinity")
  {
  }

  lemma InfinityFacts()
    ensures Lower("Infinity") == "infinity" && Unpadded("Infinity")
  {
    InfinityIsClean();
    hide Unpadded;
    assert "Infinity" == "I" + "nfinity" && "infinity" == "i" + "nfinity";
    LowerConcat("I", "nfinity");
    LowerPlain("nfinity");
  }

  lemma NameFacts(name: string)
    requires name in ["Infinity", "NaN", "sNaN"]
    ensures Lower(name) == LowerName(name) && Unpadded(name)
  {
    if name == "Infinity" { InfinityFacts(); } else { NaNFacts(); }
  }

  lemma NameIsRead(negative: bool, name: string, digits: string)
    requires name in ["Infinity", "NaN", "sNaN"] && AllDigits(digits)
    ensures ParseText(Sign(negative) + (name + digits)) == ParseUnsigned(negative, LowerName(name) + digits)
  {
    NameFacts(name);
    assert forall i :: 0 <= i < |digits| ==> IsDigit(digits[i]);
    LowerPlain(digits);
    LowerConcat(name, digits);
    SignIsRead(negative, name + digits, LowerName(name) + digits);
  }

  lemma NonFiniteText(negative: bool, name: string, digits: string)
    requires name in ["Infinity", "NaN", "sNaN"] && AllDigits(digits)
    ensures var text := Sign(negative) + (name + digits); '.' !in text && text != "" && text != "-0"
  {
    var text := Sign(negative) + (name + digits);
    assert text[|Sign(negative)|] == name[0];
    assert '.' !in name;
  }

  lemma ReadNaN(negative: bool, signaling: bool, digits: string)
    requires AllDigits(digits)
    ensures ParseUnsigned(negative, (if signaling then "snan" else "nan") + digits)
         == Some(NaN(negative, signaling, Value(digits)))
  {
    var body := "nan" + digits;
    assert body[3..] == digits;
    var s := (if signaling then "snan" else "nan") + digits;
    assert s[0] == if signaling then 's' else 'n';
    assert signaling ==> s[1..] == body;
  }

  /** The text of an infinity or a NaN is still read as what it is, payload and all, and refused for that. */
  lemma NonFiniteRejected(d: Decimal)
    requires !d.Finite?
    ensures ParseText(DecimalToWire(d)) == Some(d)
    ensures Parse(Str(DecimalToWire(d))) == Err(FloatError)
  {
    hide ParseText, RStripChar, FixedParts, Unparse, Numeral;
    if d.Infinite? {
      NonFiniteText(d.negative, "Infinity", "");
      NameIsRead(d.negative, "Infinity", "");
      assert "Infinity" + "" == "Infinity" && "infinity" + "" == "infinity";
    } else {
      var digits := if d.payload == 0 then "" else Numeral(d.payload);
      var name := if d.signaling then "sNaN" else "NaN";
      NonFiniteText(d.negative, name, digits);
      NameIsRead(d.negative, name, digits);
      ReadNaN(d.negative, d.signaling, digits);
      Assoc(Sign(d.negative), name, digits);
      PayloadIsRead(d.payload);
    }
  }

  lemma PayloadIsRead(payload: nat)
    ensures Value(if payload == 0 then "" else Numeral(payload)) == payload
  {
    ValueOfNumeral(payload);
  }

  // ---- the codec ----

  /** Round trip: a wire text parses exactly when it came from a finite decimal, and to an equal one. */
  lemma RoundTrip(d: Decimal)
    ensures Parse(Str(DecimalToWire(d))).Ok? <==> d.Finite?
    ensures d.Finite? ==> SameNumber(Parse(Str(DecimalToWire(d))).value, d)
  {
    if d.Finite? {
      var p := WireParts(d);
      ParseOfParts(p);
    } else {
      NonFiniteRejected(d);
    }
  }

  /** Two finite decimals share a wire text exactly when they are equal. */
  lemma WireIsCanonical(a: Decimal, b: Decimal)
    requires a.Finite? && b.Finite?
    ensures DecimalToWire(a) == DecimalToWire(b) <==> SameNumber(a, b)
  {
    var p := WireParts(a);
    var q := WireParts(b);
    if DecimalToWire(a) == DecimalToWire(b) {
      ParseOfParts(p);
      ParseOfParts(q);
      SameTransitive(Written(p), a, Written(p));
      SameTransitive(a, Written(p), b);
    }
    if SameNumber(a, b) {
      SameTransitive(Written(p), a, b);
      SameTransitive(Written(q), b, Written(q));
      SameTransitive(Written(p), b, Written(q));
      CanonicalUnique(p, q);
    }
  }

  /** The wire texts are exactly the canonical ones, and printing undoes parsing on them. */
  lemma WireImage(s: string)
    ensures IsCanonicalText(s) <==> exists d: Decimal :: d.Finite? && DecimalToWire(d) == s
    ensures IsCanonicalText(s) ==> Parse(Str(s)).Ok? && DecimalToWire(Parse(Str(s)).value) == s
  {
    if IsCanonicalText(s) {
      var p :| Canonical(p) && s == Unparse(p);
      ParseOfParts(p);
      var d := Written(p);
      var q := WireParts(d);
      CanonicalUnique(q, p);
    }
    if d: Decimal :| d.Finite? && DecimalToWire(d) == s {
      var p := WireParts(d);
    }
  }

  /** A decimal without a fraction is printed in full: the zeros of its exponent are appended and none is stripped. */
  lemma WholeNumbersKeepZeros(d: Decimal)
    requires d.Finite? && d.exp >= 0
    ensures DecimalToWire(d) == if d.coef == 0 then "0" else Sign(d.negative) + (Numeral(d.coef) + Zeros(d.exp))
  {
    var p := FixedParts(d);
    WireIsStripped(d);
    var digits := Numeral(d.coef);
    assert digits[..|digits|] == digits && digits + Zeros(0) == digits;
    if d.coef == 0 {
      assert p.whole == "0";
      assert Sign(false) + ("0" + "") == "0";
    } else {
      assert digits[0] != '0';
      assert p.whole == digits + Zeros(d.exp) && p.whole[0] == digits[0];
      assert p.whole + "" == p.whole;
    }
  }

  /** An integer is accepted as it is, and its wire text is its decimal numeral. */
  lemma IntegersArePrintedPlainly(n: int, requireFinite: bool)
    ensures var d := Coerce(Int(n), requireFinite);
            d.Ok? && DecimalToWire(d.value) == Sign(n < 0) + Numeral(if n < 0 then -n else n)
  {
    var magnitude := if n < 0 then -n else n;
    WholeNumbersKeepZeros(Finite(n < 0, magnitude, 0));
    assert Numeral(magnitude) + Zeros(0) == Numeral(magnitude);
    assert n == 0 ==> Sign(false) + Numeral(0) == "0";
  }
}
