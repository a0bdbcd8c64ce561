/** Decimal numerals of natural numbers, most significant digit first. */
module Digits {

  predicate IsDigit(c: char) {
    '0' <= c <= '9'
  }

  predicate AllDigits(s: string) {
    forall c <- s :: IsDigit(c)
  }

  function DigitValue(c: char): (d: nat)
    requires IsDigit(c)
    ensures d < 10
  {
    c as int - '0' as int
  }

  function DigitChar(d: nat): (c: char)
    requires d < 10
    ensures IsDigit(c) && DigitValue(c) == d
  {
    (d + '0' as int) as char
  }

  /** `str(n)` */
  function Numeral(n: nat): (s: string)
    ensures AllDigits(s) && s != ""
    ensures s[0] == '0' ==> n == 0
    ensures n == 0 ==> s == "0"
  {
    if n < 10 then [DigitChar(n)]
    else Numeral(n / 10) + [DigitChar(n % 10)]
  }

  /** `int(s)` */
  function Value(s: string): nat
    requires AllDigits(s)
  {
    if s == "" then 0 else 10 * Value(s[..|s| - 1]) + DigitValue(s[|s| - 1])
  }

  function Pow10(k: nat): (p: nat)
    ensures p > 0
  {
    if k == 0 then 1 else 10 * Pow10(k - 1)
  }

  function Zeros(k: nat): (z: string)
    ensures AllDigits(z) && |z| == k
  {
    if k == 0 then "" else Zeros(k - 1) + "0"
  }

  lemma MulAssoc(a: int, b: int, c: int)
    ensures a * (b * c) == (a * b) * c
  {
  }

  lemma {:induction false} Pow10Sum(a: nat, b: nat)
    ensures Pow10(a + b) == Pow10(a) * Pow10(b)
  {
    if a > 0 {
      Pow10Sum(a - 1, b);
      MulAssoc(10, Pow10(a - 1), Pow10(b));
    }
  }

  lemma {:induction false} ValueOfNumeral(n: nat)
    ensures Value(Numeral(n)) == n
  {
    if n >= 10 {
      ValueOfNumeral(n / 10);
      assert Numeral(n)[..|Numeral(n)| - 1] == Numeral(n / 10);
    }
  }

  lemma {:induction false} ValueBound(b: string)
    requires AllDigits(b)
    ensures Value(b) < Pow10(|b|)
  {
    if b != "" { ValueBound(b[..|b| - 1]); }
  }

  lemma MulTen(x: int, p: int)
    ensures 10 * (x * p) == x * (10 * p)
  {
  }

  /** The value of a numeral in two pieces. */
  lemma {:induction false} ValueConcat(a: string, b: string)
    requires AllDigits(a) && AllDigits(b)
    ensures Value(a + b) == Value(a) * Pow10(|b|) + Value(b)
  {
    if b == "" {
      assert a + b == a;
    } else {
      var b' := b[..|b| - 1];
      assert (a + b)[..|a + b| - 1] == a + b';
      assert (a + b)[|a + b| - 1] == b[|b| - 1];
      assert Value(a + b) == 10 * Value(a + b') + DigitValue(b[|b| - 1]);
      assert Value(b) == 10 * Value(b') + DigitValue(b[|b| - 1]);
      assert Pow10(|b|) == 10 * Pow10(|b'|);
      hide Value, Pow10, AllDigits;
      ValueConcat(a, b');
      MulTen(Value(a), Pow10(|b'|));
    }
  }

  lemma {:induction false} ValueOfZeros(k: nat)
    ensures Value(Zeros(k)) == 0
  {
    if k > 0 {
      ValueOfZeros(k - 1);
      assert Zeros(k)[..k - 1] == Zeros(k - 1);
    }
  }

  /** Numerals of one length are equal when their values are. */
  lemma {:induction false} ValueInjective(a: string, b: string)
    requires AllDigits(a) && AllDigits(b) && |a| == |b| && Value(a) == Value(b)
    ensures a == b
  {
    if a != "" {
      var n := |a| - 1;
      ValueInjective(a[..n], b[..n]);
      assert a == a[..n] + [a[n]] && b == b[..n] + [b[n]];
    }
  }

  /** Without superfluous leading zeros, a numeral is determined by its value. */
  predicate NoLeadingZero(s: string) {
    s != "" && AllDigits(s) && (s[0] == '0' ==> |s| == 1)
  }

  lemma NumeralStep(q: nat, c: char)
    requires q > 0 && IsDigit(c)
    ensures Numeral(10 * q + DigitValue(c)) == Numeral(q) + [c]
  {
    var n := 10 * q + DigitValue(c);
    assert n / 10 == q && n % 10 == DigitValue(c);
  }

  lemma {:induction false} NumeralOfValue(s: string)
    requires NoLeadingZero(s)
    ensures Numeral(Value(s)) == s
  {
    var n := |s| - 1;
    var head, c := s[..n], s[n];
    assert s == head + [c];
    if head == "" {
      assert Value(head) == 0;
    } else {
      assert head[0] == s[0] != '0';
      NumeralOfValue(head);
      NumeralStep(Value(head), c);
    }
  }
}
