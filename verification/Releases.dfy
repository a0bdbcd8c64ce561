/** Texts the deployment tools recognise: numbers, hexadecimal digits and release tags. */
module Releases {
  import opened Text
  import opened Digits

  /** `[0-9a-f]` */
  predicate IsHexDigit(c: char) {
    IsDigit(c) || 'a' <= c <= 'f'
  }

  const HEX_DIGITS := "0123456789abcdef"

  /** A text of so many hexadecimal digits, in lower case. */
  predicate HexText(s: string, least: nat, most: nat) {
    least <= |s| <= most && forall c <- s :: c in HEX_DIGITS
  }

  lemma HexDigitsAreListed(c: char)
    ensures IsHexDigit(c) <==> c in HEX_DIGITS
  {
    if IsDigit(c) {
      assert HEX_DIGITS[c as int - '0' as int] == c;
    } else if IsHexDigit(c) {
      assert HEX_DIGITS[10 + (c as int - 'a' as int)] == c;
    }
  }

  /** `[0-9]+` */
  predicate IsNumber(s: string) {
    s != "" && forall i :: 0 <= i < |s| ==> IsDigit(s[i])
  }

  /** `v[0-9]+\.[0-9]+\.[0-9]+` */
  predicate IsRelease(tag: string) {
    tag != "" && tag[0] == 'v'
    && var parts := Split(tag[1..], '.');
    |parts| == 3 && IsNumber(parts[0]) && IsNumber(parts[1]) && IsNumber(parts[2])
  }

  const DIGITS := "0123456789"

  predicate DigitText(s: string) {
    s != "" && forall c <- s :: c in DIGITS
  }

  lemma DigitsAreListed(c: char)
    ensures IsDigit(c) <==> c in DIGITS
  {
    if IsDigit(c) { assert DIGITS[c as int - '0' as int] == c; }
  }

  lemma NumberIsDigits(s: string)
    ensures IsNumber(s) <==> DigitText(s)
  {
    forall c: char ensures IsDigit(c) <==> c in DIGITS {
      DigitsAreListed(c);
    }
    hide IsDigit;
    assert IsNumber(s) ==> forall c <- s :: IsDigit(c);
  }

  /** A release tag, by its pieces. */
  ghost predicate ReleaseOf(tag: string, major: string, minor: string, patch: string) {
    DigitText(major) && DigitText(minor) && DigitText(patch) && tag == "v" + (major + ['.'] + (minor + ['.'] + patch))
  }

  lemma NoPointInNumber(s: string)
    requires IsNumber(s)
    ensures '.' !in s
  {
  }

  lemma ThreeParts(major: string, minor: string, patch: string)
    requires IsNumber(major) && IsNumber(minor) && IsNumber(patch)
    ensures Split(major + ['.'] + (minor + ['.'] + patch), '.') == [major, minor, patch]
  {
    NoPointInNumber(major);
    NoPointInNumber(minor);
    NoPointInNumber(patch);
    SplitAppend(major, '.', minor + ['.'] + patch);
    SplitAppend(minor, '.', patch);
    SplitPlain(patch, '.');
  }

  lemma JoinedParts(parts: seq<string>)
    requires |parts| == 3
    ensures Join(parts, ".") == parts[0] + ['.'] + (parts[1] + ['.'] + parts[2])
  {
    assert parts[1..][1..] == [parts[2]] && Join(parts[1..][1..], ".") == parts[2];
    assert Join(parts[1..], ".") == parts[1] + "." + parts[2];
  }

  /** A release tag is "v" and three numbers with points between them. */
  lemma ReleaseExactly(tag: string)
    ensures IsRelease(tag) <==> exists major, minor, patch :: ReleaseOf(tag, major, minor, patch)
  {
    forall s ensures IsNumber(s) <==> DigitText(s) {
      NumberIsDigits(s);
    }
    hide IsNumber, DigitText;
    if IsRelease(tag) {
      var parts := Split(tag[1..], '.');
      JoinSplit(tag[1..], '.');
      JoinedParts(parts);
      hide Split, Join;
      assert tag == "v" + tag[1..];
      assert ReleaseOf(tag, parts[0], parts[1], parts[2]);
    }
    if major, minor, patch :| ReleaseOf(tag, major, minor, patch) {
      ThreeParts(major, minor, patch);
      assert tag[1..] == major + ['.'] + (minor + ['.'] + patch);
    }
  }
}
