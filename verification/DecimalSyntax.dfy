/**
 Which texts the decimal parser accepts, and what it makes of each
 (common/audit/decimal_scalar.py): the grammar of numeric strings, stated by
 their pieces.
 */
module DecimalSyntax {
  import opened Wrappers
  import opened Text
  import opened Digits
  import opened DecimalWire

  // ---- the grammar ----

  /** A sign, digits around an optional point, and an optional exponent. */
  datatype Pieces = Pieces(sign: string, whole: string, point: string, fraction: string,
                           mark: string, expSign: string, exponent: string)

  predicate IsSign(s: string) {
    s == "" || s == "+" || s == "-"
  }

  predicate WellFormed(p: Pieces) {
    && IsSign(p.sign)
    && AllDigits(p.whole) && AllDigits(p.fraction) && p.whole + p.fraction != ""
    && (p.point == "." || (p.point == "" && p.fraction == ""))
    && (if p.mark == "" then p.expSign == "" && p.exponent == ""
        else (p.mark == "e" || p.mark == "E") && IsSign(p.expSign) && p.exponent != "" && AllDigits(p.exponent))
  }

  function ExponentText(p: Pieces): string {
    p.mark + (p.expSign + p.exponent)
  }

  function PointText(p: Pieces): string {
    p.point + (p.fraction + ExponentText(p))
  }

  function Spelled(p: Pieces): string {
    p.sign + (p.whole + PointText(p))
  }

  function Magnitude(p: Pieces): int
    requires WellFormed(p)
  {
    var n: int := Value(p.exponent);
    if p.expSign == "-" then -n else n
  }

  function Denoted(p: Pieces): Decimal
    requires WellFormed(p)
  {
    Finite(p.sign == "-", Value(p.whole + p.fraction), Magnitude(p) - |p.fraction|)
  }

  ghost predicate IsNumeral(s: string, d: Decimal) {
    exists p :: WellFormed(p) && s == Spelled(p) && d == Denoted(p)
  }

  predicate IsSigned(s: string, sign: string, body: string) {
    IsSign(sign) && s == sign + body
  }

  ghost predicate IsInfinity(s: string, d: Decimal) {
    exists sign, name :: IsSigned(s, sign, name) && Lower(name) in {"inf", "infinity"} && d == Infinite(sign == "-")
  }

  /** "nan" or "snan" in any case, and the digits of its payload. */
  predicate NamesNaN(body: string, signaling: bool, digits: string) {
    AllDigits(digits) && Lower(body) == (if signaling then "snan" else "nan") + digits
  }

  ghost predicate IsNaN(s: string, d: Decimal) {
    exists sign, body, signaling, digits ::
      IsSigned(s, sign, body) && NamesNaN(body, signaling, digits) && d == NaN(sign == "-", signaling, Value(digits))
  }

  // ---- numerals are read as they are spelled ----

  lemma ExponentIsRead(p: Pieces)
    requires WellFormed(p) && p.mark != "E"
    ensures ParseExponent(ExponentText(p)) == Some(Magnitude(p))
  {
    if p.mark == "" {
      assert ExponentText(p) == "";
    } else if p.expSign == "" {
      assert ExponentText(p) == ['e'] + p.exponent;
      UnsignedExponent(p.exponent);
    } else {
      assert ExponentText(p) == ['e', p.expSign[0]] + p.exponent;
      SignedExponent(p.expSign[0], p.exponent);
    }
  }

  lemma UnsignedExponent(digits: string)
    requires digits != "" && AllDigits(digits)
    ensures ParseExponent(['e'] + digits) == Some(Value(digits))
  {
    var s := ['e'] + digits;
    assert s[1..] == digits && IsDigit(s[1]);
  }

  lemma SignedExponent(sign: char, digits: string)
    requires digits != "" && AllDigits(digits) && (sign == '+' || sign == '-')
    ensures var n: int := Value(digits); ParseExponent(['e', sign] + digits) == Some(if sign == '-' then -n else n)
  {
    var s := ['e', sign] + digits;
    assert s[2..] == digits;
  }

  lemma PointIsRead(p: Pieces)
    requires WellFormed(p) && p.mark != "E"
    ensures var s := PointText(p); (s == "" || !IsDigit(s[0])) && FractionOf(s) == (p.fraction, ExponentText(p))
  {
    var s, e := PointText(p), ExponentText(p);
    assert e == "" || e[0] == 'e';
    if p.point == "" {
      assert p.fraction + e == e && s == e;
    } else {
      assert s[0] == '.' && s[1..] == p.fraction + e;
      DigitRunIs(p.fraction, e);
      assert (p.fraction + e)[..|p.fraction|] == p.fraction && (p.fraction + e)[|p.fraction|..] == e;
    }
  }

  lemma NumberIsRead(negative: bool, p: Pieces)
    requires WellFormed(p) && p.mark != "E"
    ensures ParseNumber(negative, p.whole + PointText(p))
         == Some(Finite(negative, Value(p.whole + p.fraction), Magnitude(p) - |p.fraction|))
  {
    hide PointText, ExponentText, FractionOf, ParseExponent, ParseNumber, Value, Magnitude, IsDigit, AllDigits, IsSign;
    var rest, exponent := PointText(p), ExponentText(p);
    PointIsRead(p);
    ExponentIsRead(p);
    ParseNumberIs(negative, p.whole, rest, p.fraction, exponent);
  }

  lemma BodyStarts(p: Pieces)
    requires WellFormed(p)
    ensures var body := p.whole + PointText(p);
            IsSign(p.sign) && body != "" && (IsDigit(body[0]) || body[0] == '.') && body[0] != '+' && body[0] != '-'
  {
    var body := p.whole + PointText(p);
    if p.whole != "" { assert body[0] == p.whole[0]; } else { assert body[0] == '.'; }
  }

  lemma SignIsTaken(sign: string, body: string)
    requires IsSign(sign) && body != "" && body[0] != '+' && body[0] != '-'
    ensures ParseSigned(sign + body) == ParseUnsigned(sign == "-", body)
  {
    var s := sign + body;
    assert s[|sign|..] == body;
    hide ParseUnsigned;
    if sign != "" { assert s[0] == sign[0]; }
  }

  lemma SpelledIsRead(p: Pieces)
    requires WellFormed(p) && p.mark != "E"
    ensures ParseSigned(Spelled(p)) == Some(Denoted(p))
  {
    hide WellFormed, PointText, ParseNumber, ParseUnsigned, ParseSigned, Magnitude, Value, AllDigits, IsDigit, IsSign;
    var body := p.whole + PointText(p);
    BodyStarts(p);
    SignIsTaken(p.sign, body);
    NumberOrPoint(p.sign == "-", body);
    NumberIsRead(p.sign == "-", p);
  }

  lemma NumberOrPoint(negative: bool, body: string)
    requires body != "" && (IsDigit(body[0]) || body[0] == '.')
    ensures ParseUnsigned(negative, body) == ParseNumber(negative, body)
  {
    hide ParseNumber;
  }

  // ---- whatever is read is a numeral or a name ----

  lemma ExponentIsSpelled(s: string) returns (mark: string, expSign: string, exponent: string)
    requires ParseExponent(s).Some?
    ensures var p := Pieces("", "0", "", "", mark, expSign, exponent); WellFormed(p) && mark != "E" && s == ExponentText(p)
  {
    mark, expSign, exponent := "", "", "";
    if s != "" {
      mark := "e";
      if |s| > 1 && (s[1] == '+' || s[1] == '-') {
        expSign, exponent := [s[1]], s[2..];
      } else {
        exponent := s[1..];
      }
      assert exponent != "" && AllDigits(exponent);
      hide ParseExponent, AllDigits;
      assert s == mark + (expSign + exponent);
    }
    OneDigit();
  }

  lemma OneDigit()
    ensures AllDigits("0") && AllDigits("") && "0" + "" != ""
  {
  }

  lemma FractionIsSpelled(rest: string) returns (point: string)
    ensures var (fraction, exponent) := FractionOf(rest);
            rest == point + (fraction + exponent) && (point == "." || (point == "" && fraction == ""))
  {
    if rest != "" && rest[0] == '.' {
      point := ".";
      var j := DigitRun(rest[1..]);
      assert rest[1..] == rest[1..][..j] + rest[1..][j..];
    } else {
      point := "";
      assert "" + ("" + rest) == rest;
    }
  }

  lemma NumberIsSpelled(negative: bool, body: string) returns (p: Pieces)
    requires ParseNumber(negative, body).Some?
    ensures WellFormed(p) && p.sign == "" && p.mark != "E" && body == p.whole + PointText(p)
  {
    hide FractionOf, DigitRun, Magnitude, Value, ParseExponent;
    var i := DigitRun(body);
    var (fraction, rest) := FractionOf(body[i..]);
    var point := FractionIsSpelled(body[i..]);
    var mark, expSign, exponent := ExponentIsSpelled(rest);
    p := SpelledPieces(body[..i], point, fraction, mark, expSign, exponent, rest);
    hide WellFormed, PointText, ParseNumber;
    assert body == body[..i] + body[i..];
  }

  lemma SpelledPieces(whole: string, point: string, fraction: string, mark: string, expSign: string, exponent: string,
                      rest: string) returns (p: Pieces)
    requires AllDigits(whole) && AllDigits(fraction) && whole + fraction != ""
    requires point == "." || (point == "" && fraction == "")
    requires var e := Pieces("", "0", "", "", mark, expSign, exponent); WellFormed(e) && mark != "E" && rest == ExponentText(e)
    ensures p == Pieces("", whole, point, fraction, mark, expSign, exponent)
    ensures WellFormed(p) && PointText(p) == point + (fraction + rest)
  {
    p := Pieces("", whole, point, fraction, mark, expSign, exponent);
  }

  /** What is read, with its sign, in lower case. */
  lemma SignIsSpelled(s: string) returns (sign: string, body: string)
    ensures IsSigned(s, sign, body) && ParseSigned(s) == ParseUnsigned(sign == "-", body)
  {
    hide ParseUnsigned;
    if s != "" && (s[0] == '+' || s[0] == '-') {
      sign, body := [s[0]], s[1..];
      assert s == [s[0]] + s[1..];
    } else {
      sign, body := "", s;
      assert s == "" + s;
    }
  }

  // ---- letters in either case ----

  predicate NoLetters(s: string) {
    forall c <- s :: !('a' <= c <= 'z') && !('A' <= c <= 'Z')
  }

  lemma LowerSlice(t: string, a: string, b: string)
    requires Lower(t) == a + b
    ensures |a| <= |t| && Lower(t[..|a|]) == a && Lower(t[|a|..]) == b
  {
    hide Lower;
    assert |t| == |Lower(t)| == |a| + |b|;
    LowerHalves(t, |a|);
    SameHalves(a, b, Lower(t[..|a|]), Lower(t[|a|..]));
  }

  lemma LowerHalves(t: string, n: nat)
    requires n <= |t|
    ensures Lower(t) == Lower(t[..n]) + Lower(t[n..])
  {
    hide Lower;
    assert t == t[..n] + t[n..];
    LowerConcat(t[..n], t[n..]);
  }

  lemma SameHalves(a: string, b: string, c: string, d: string)
    requires a + b == c + d && |a| == |c|
    ensures a == c && b == d
  {
    WholeIsSlice(a, b);
    WholeIsSlice(c, d);
  }

  lemma LowerIsSame(t: string)
    requires NoLetters(Lower(t))
    ensures t == Lower(t)
  {
    forall i: nat | i < |t| ensures t[i] == Lower(t)[i] {
      LowerAt(t, i);
      assert Lower(t)[i] in Lower(t);
    }
  }

  /** A piece without letters is the same in either case. */
  lemma Peel(t: string, a: string, b: string) returns (u: string)
    requires Lower(t) == a + b && NoLetters(a)
    ensures t == a + u && Lower(u) == b
  {
    LowerSlice(t, a, b);
    LowerIsSame(t[..|a|]);
    u := t[|a|..];
    assert t == t[..|a|] + u;
  }

  lemma PeelMark(t: string, mark: string, b: string) returns (m: string, u: string)
    requires Lower(t) == mark + b && (mark == "" || mark == "e")
    ensures t == m + u && Lower(u) == b && (if mark == "" then m == "" else m == "e" || m == "E")
  {
    LowerSlice(t, mark, b);
    m, u := t[..|mark|], t[|mark|..];
    assert t == m + u;
    if mark == "e" {
      LowerAt(m, 0);
      assert m == [m[0]];
    }
  }

  lemma PiecesHaveNoLetters(p: Pieces)
    requires WellFormed(p)
    ensures NoLetters(p.sign) && NoLetters(p.whole) && NoLetters(p.point) && NoLetters(p.fraction)
    ensures NoLetters(p.expSign + p.exponent)
  {
    assert forall c <- p.whole :: IsDigit(c);
    assert forall c <- p.fraction :: IsDigit(c);
    assert forall c <- p.exponent :: IsDigit(c);
  }

  lemma NumeralInEitherCase(t: string, p: Pieces) returns (q: Pieces)
    requires WellFormed(p) && p.mark != "E" && Lower(t) == Spelled(p)
    ensures WellFormed(q) && t == Spelled(q) && Denoted(q) == Denoted(p)
  {
    PiecesHaveNoLetters(p);
    hide Lower, NoLetters, AllDigits, IsSign;
    var t1 := Peel(t, p.sign, p.whole + PointText(p));
    var t2 := Peel(t1, p.whole, PointText(p));
    var t3 := Peel(t2, p.point, p.fraction + ExponentText(p));
    var t4 := Peel(t3, p.fraction, ExponentText(p));
    var m, t5 := PeelMark(t4, p.mark, p.expSign + p.exponent);
    LowerIsSame(t5);
    q := p.(mark := m);
  }

  lemma LowerOfPlain(s: string)
    requires NoLetters(s)
    ensures Lower(s) == s
  {
    assert forall i :: 0 <= i < |s| ==> s[i] in s;
    LowerPlain(s);
  }

  lemma LowerBehind(a: string, b: string)
    requires NoLetters(a)
    ensures Lower(a + b) == a + Lower(b)
  {
    LowerConcat(a, b);
    LowerOfPlain(a);
  }

  function InLower(p: Pieces): Pieces {
    p.(mark := if p.mark == "E" then "e" else p.mark)
  }

  lemma ExponentInLower(p: Pieces)
    requires WellFormed(p)
    ensures Lower(ExponentText(p)) == ExponentText(InLower(p))
  {
    PiecesHaveNoLetters(p);
    assert Lower("e") == "e" && Lower("E") == "e" && Lower("") == "";
    hide Lower, NoLetters, AllDigits, IsSign;
    LowerConcat(p.mark, p.expSign + p.exponent);
    LowerOfPlain(p.expSign + p.exponent);
  }

  lemma SpelledInLower(p: Pieces)
    requires WellFormed(p)
    ensures WellFormed(InLower(p)) && Lower(Spelled(p)) == Spelled(InLower(p)) && Denoted(InLower(p)) == Denoted(p)
  {
    PiecesHaveNoLetters(p);
    ExponentInLower(p);
    hide Lower, NoLetters, AllDigits, IsSign, ExponentText;
    LowerBehind(p.fraction, ExponentText(p));
    LowerBehind(p.point, p.fraction + ExponentText(p));
    LowerBehind(p.whole, PointText(p));
    LowerBehind(p.sign, p.whole + PointText(p));
  }

  // ---- exactly what is read ----

  /** A numeric string: a numeral, an infinity or a NaN. */
  ghost predicate Denotes(s: string, d: Decimal) {
    IsNumeral(s, d) || IsInfinity(s, d) || IsNaN(s, d)
  }

  lemma NumeralIsParsed(t: string, d: Decimal)
    requires IsNumeral(t, d)
    ensures ParseSigned(Lower(t)) == Some(d)
  {
    var p :| WellFormed(p) && t == Spelled(p) && d == Denoted(p);
    hide WellFormed, Spelled, Denoted;
    SpelledInLower(p);
    SpelledIsRead(InLower(p));
  }

  lemma SignInLower(t: string, sign: string, body: string)
    requires IsSigned(t, sign, body)
    ensures IsSigned(Lower(t), sign, Lower(body))
  {
    LowerBehind(sign, body);
  }

  lemma InfinityIsParsed(t: string, d: Decimal)
    requires IsInfinity(t, d)
    ensures ParseSigned(Lower(t)) == Some(d)
  {
    var sign, name :| IsSigned(t, sign, name) && Lower(name) in {"inf", "infinity"} && d == Infinite(sign == "-");
    SignInLower(t, sign, name);
    hide Lower;
    SignIsTaken(sign, Lower(name));
  }

  lemma NaNIsParsed(t: string, d: Decimal)
    requires IsNaN(t, d)
    ensures ParseSigned(Lower(t)) == Some(d)
  {
    var sign, body, signaling, digits :|
      IsSigned(t, sign, body) && NamesNaN(body, signaling, digits) && d == NaN(sign == "-", signaling, Value(digits));
    SignInLower(t, sign, body);
    var name := if signaling then "snan" else "nan";
    assert (name + digits)[0] == name[0];
    hide Lower;
    SignIsTaken(sign, Lower(body));
    ReadNaN(sign == "-", signaling, digits);
  }

  lemma NaNIsSpelled(negative: bool, body: string) returns (signaling: bool, digits: string)
    requires ParseNaN(negative, body).Some?
    ensures AllDigits(digits) && body == (if signaling then "snan" else "nan") + digits
    ensures ParseNaN(negative, body) == Some(NaN(negative, signaling, Value(digits)))
  {
    signaling := body != "" && body[0] == 's';
    var rest := if signaling then body[1..] else body;
    digits := rest[3..];
    assert rest == "nan" + digits;
    assert signaling ==> body == "s" + rest && "s" + "nan" == "snan";
    Assoc("s", "nan", digits);
  }

  lemma ParsedIsDenoted(t: string, d: Decimal)
    requires ParseSigned(Lower(t)) == Some(d)
    ensures Denotes(t, d)
  {
    var sign, body := SignIsSpelled(Lower(t));
    var negative := sign == "-";
    hide Lower, ParseNumber, ParseNaN, ParseSigned;
    var u := Peel(t, sign, body);
    assert IsSigned(t, sign, u);
    if body == "inf" || body == "infinity" {
      assert IsInfinity(t, d);
    } else if ParseNaN(negative, body).Some? {
      var signaling, digits := NaNIsSpelled(negative, body);
      assert NamesNaN(u, signaling, digits);
      assert IsNaN(t, d);
    } else {
      NumberIsDenoted(t, sign, body, d);
    }
  }

  lemma NumberIsDenoted(t: string, sign: string, body: string, d: Decimal)
    requires IsSigned(Lower(t), sign, body) && ParseNumber(sign == "-", body) == Some(d)
    ensures IsNumeral(t, d)
  {
    var p0 := NumberIsSpelled(sign == "-", body);
    var p := p0.(sign := sign);
    NumberIsRead(sign == "-", p);
    hide ParseNumber, Lower, Magnitude, AllDigits;
    assert Spelled(p) == Lower(t) && Denoted(p) == d;
    var q := NumeralInEitherCase(t, p);
  }

  lemma SignedExactly(t: string, d: Decimal)
    ensures ParseSigned(Lower(t)) == Some(d) <==> Denotes(t, d)
  {
    hide ParseSigned, Lower, IsNumeral, IsInfinity, IsNaN;
    if ParseSigned(Lower(t)) == Some(d) { ParsedIsDenoted(t, d); }
    if IsNumeral(t, d) { NumeralIsParsed(t, d); }
    if IsInfinity(t, d) { InfinityIsParsed(t, d); }
    if IsNaN(t, d) { NaNIsParsed(t, d); }
  }

  // ---- white space and underscores ----

  /** A text without the white space around it and without underscores. */
  ghost predicate CleansTo(text: string, s: string) {
    exists a, core, b :: AllSpace(a) && AllSpace(b) && IsCore(core) && text == a + core + b && s == Join(Split(core, '_'), "")
  }

  lemma {:induction false} DroppedIsJoined(s: string)
    ensures DropUnderscores(s) == Join(Split(s, '_'), "")
  {
    if s != "" {
      var rest := Split(s[1..], '_');
      DroppedIsJoined(s[1..]);
      var parts := Split(s, '_');
      if s[0] == '_' {
        assert parts == [""] + rest && parts[1..] == rest;
      } else {
        assert parts == [[s[0]] + rest[0]] + rest[1..] && parts[1..] == rest[1..];
      }
    }
  }

  lemma CleanedIs(text: string, s: string)
    ensures CleansTo(text, s) <==> s == DropUnderscores(Strip(text))
  {
    var a, b := StripRest(text);
    DroppedIsJoined(Strip(text));
    hide Strip, DropUnderscores, Join, Split, AllSpace, IsCore;
    if CleansTo(text, s) {
      var x, core, y :| AllSpace(x) && AllSpace(y) && IsCore(core) && text == x + core + y && s == Join(Split(core, '_'), "");
      StripIs(x, core, y);
    }
  }

  lemma Kinds(s: string, d: Decimal)
    ensures IsNumeral(s, d) ==> d.Finite?
    ensures IsInfinity(s, d) || IsNaN(s, d) ==> !d.Finite?
  {
  }

  lemma CleanIsParsed(text: string, clean: string)
    requires clean == DropUnderscores(Strip(text))
    ensures forall d :: Parse(Str(text)) == Ok(d) <==> IsNumeral(clean, d)
    ensures Parse(Str(text)) == Err(FloatError) <==> exists d :: IsInfinity(clean, d) || IsNaN(clean, d)
    ensures Parse(Str(text)) == Err(PayloadError) <==> forall d :: !Denotes(clean, d)
  {
    assert ParseText(text) == ParseSigned(Lower(clean));
    hide ParseText, ParseSigned, Lower, DropUnderscores, Strip, IsNumeral, IsInfinity, IsNaN;
    forall d ensures ParseText(text) == Some(d) <==> Denotes(clean, d)
             ensures IsNumeral(clean, d) ==> d.Finite?
             ensures IsInfinity(clean, d) || IsNaN(clean, d) ==> !d.Finite?
    {
      SignedExactly(clean, d);
      Kinds(clean, d);
    }
  }

  /**
   Of every text: it is accepted exactly as the numeral it spells once white
   space around it and underscores are gone, refused as non-finite exactly when
   it names an infinity or a NaN, and as no decimal exactly otherwise.
   */
  lemma ParseExactly(text: string)
    ensures forall d :: Parse(Str(text)) == Ok(d) <==> exists s :: CleansTo(text, s) && IsNumeral(s, d)
    ensures Parse(Str(text)) == Err(FloatError) <==> exists s, d :: CleansTo(text, s) && (IsInfinity(s, d) || IsNaN(s, d))
    ensures Parse(Str(text)) == Err(PayloadError) <==> forall s, d :: CleansTo(text, s) ==> !Denotes(s, d)
  {
    var clean := DropUnderscores(Strip(text));
    CleanIsParsed(text, clean);
    hide Parse, CleansTo, DropUnderscores, Strip, IsNumeral, IsInfinity, IsNaN, Denotes;
    forall s ensures CleansTo(text, s) <==> s == clean {
      CleanedIs(text, s);
    }
  }

  /** Whatever is no string is refused as a float is. */
  lemma OnlyStringsAreParsed(value: PyValue)
    ensures !value.Str? ==> Parse(value) == Err(FloatError)
  {
  }

  /** What construction accepts: a decimal as it is, if it may be non-finite, and an integer as the decimal of that number. */
  lemma CoercedExactly(value: PyValue, requireFinite: bool, d: Decimal)
    ensures Coerce(value, requireFinite) == Ok(d)
            <==> (value == Dec(d) && (requireFinite ==> d.Finite?))
                 || (value.Int? && d.Finite? && d.exp == 0 && Scaled(d, 0) == value.n && (d.negative ==> d.coef > 0))
    ensures Coerce(value, requireFinite).Err? ==> Coerce(value, requireFinite) == Err(FloatError)
  {
  }
}
