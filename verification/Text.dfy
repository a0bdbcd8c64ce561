/**
 The string operations of the Python code: substring search, `partition`,
 `split`, `join`, `splitlines` and `strip`, with the facts that tie them together.
 */
module Text {
  import opened Wrappers

  // ---- substrings ----

  predicate OccursAt(p: string, s: string, i: int) {
    0 <= i <= |s| - |p| && s[i..i + |p|] == p
  }

  /** `s.find(p)`: the first position of `p`. */
  function Find(p: string, s: string): (r: Option<nat>)
    ensures r.None? ==> forall i :: !OccursAt(p, s, i)
    ensures r.Some? ==> OccursAt(p, s, r.value) && forall i :: 0 <= i < r.value ==> !OccursAt(p, s, i)
  {
    if |s| < |p| then None
    else if p <= s then Some(0)
    else
      var r := Find(p, s[1..]);
      assert forall i :: 0 < i ==> OccursAt(p, s, i) == OccursAt(p, s[1..], i - 1) by {
        forall i | 0 < i ensures OccursAt(p, s, i) == OccursAt(p, s[1..], i - 1) {
          if i <= |s| - |p| { assert s[1..][i - 1..i - 1 + |p|] == s[i..i + |p|]; }
        }
      }
      if r.None? then None else Some(r.value + 1)
  }

  /** `p in s` */
  predicate Contains(p: string, s: string) {
    Find(p, s).Some?
  }

  /** `s.partition(p)`, without the separator. */
  function Partition(s: string, p: string): (string, string) {
    match Find(p, s)
    case Some(i) => (s[..i], s[i + |p|..])
    case None => (s, "")
  }

  /** How to recognise the first occurrence of a pattern in a text. */
  lemma FoundAt(p: string, s: string, i: nat)
    requires OccursAt(p, s, i) && forall j :: 0 <= j < i ==> !OccursAt(p, s, j)
    ensures Find(p, s) == Some(i)
  {
  }

  /** The pattern that ends `head + p` is still the first one when text follows. */
  lemma PartitionFirst(head: string, p: string, rest: string)
    requires Find(p, head + p) == Some(|head|)
    ensures Find(p, head + p + rest) == Some(|head|)
    ensures Partition(head + p + rest, p) == (head, rest)
  {
    var s := head + p + rest;
    assert OccursAt(p, s, |head|);
    forall j | 0 <= j < |head| ensures !OccursAt(p, s, j) {
      assert s[j..j + |p|] == (head + p)[j..j + |p|];
      assert !OccursAt(p, head + p, j);
    }
    FoundAt(p, s, |head|);
    assert s[..|head|] == head && s[|head| + |p|..] == rest;
  }

  /** The text in front of the first occurrence, with the pattern put behind it, has its first occurrence there. */
  lemma FirstStaysFirst(p: string, e: string)
    requires Contains(p, e)
    ensures var head := Partition(e, p).0; Find(p, head + p) == Some(|head|)
  {
    var head := Partition(e, p).0;
    assert (head + p)[|head|..|head| + |p|] == p;
    assert e[..|head| + |p|] == head + p;
    forall j | 0 <= j < |head| ensures !OccursAt(p, head + p, j) {
      assert (head + p)[j..j + |p|] == e[j..j + |p|];
      assert !OccursAt(p, e, j);
    }
    FoundAt(p, head + p, |head|);
  }

  lemma FirstInItself(p: string)
    ensures Find(p, p) == Some(0)
  {
    assert OccursAt(p, p, 0);
    FoundAt(p, p, 0);
  }

  lemma Assoc<T>(a: seq<T>, b: seq<T>, c: seq<T>)
    ensures a + b + c == a + (b + c)
  {
  }

  lemma Regroup(a: string, b: string, c: string, d: string, e: string)
    ensures a + (b + c + d) + e == a + b + (c + d + e)
    ensures a + (b + c + d) + e == (a + b + c) + d + e
    ensures a + b + c + d + e == a + b + (c + d + e)
    ensures a + b + c + d + e == (a + b + c) + d + e
  {
  }

  /** A pattern occurs in a text around any of its occurrences. */
  lemma ContainsAt(p: string, a: string, b: string)
    ensures Contains(p, a + p + b)
  {
    assert OccursAt(p, a + p + b, |a|);
  }

  lemma ContainsInPrefix(p: string, s: string, b: string)
    requires Contains(p, s)
    ensures Contains(p, s + b)
  {
    var i := Find(p, s).value;
    assert (s + b)[i..i + |p|] == s[i..i + |p|];
    assert OccursAt(p, s + b, i);
  }

  lemma ContainsInFirst(p: string, a: string, b: string, c: string)
    requires Contains(p, a)
    ensures Contains(p, a + b + c)
  {
    Assoc(a, b, c);
    ContainsInPrefix(p, a, b + c);
  }

  lemma PartitionPresent(s: string, p: string)
    requires Contains(p, s)
    ensures var (head, rest) := Partition(s, p); s == head + p + rest
  {
  }

  lemma SameTail(head: string, a: string, b: string)
    requires head + a == head + b
    ensures a == b
  {
    assert (head + a)[|head|..] == a && (head + b)[|head|..] == b;
  }

  lemma PartitionAbsent(s: string, p: string)
    requires !Contains(p, s)
    ensures Partition(s, p) == (s, "")
  {
  }

  /** A pattern without `c` that occurs in `a + [c] + b` occurs on one side of that character. */
  lemma OccursAround(p: string, a: string, c: char, b: string, i: nat)
    requires c !in p && p != "" && OccursAt(p, a + [c] + b, i)
    ensures (i + |p| <= |a| && OccursAt(p, a, i)) || (|a| < i && OccursAt(p, b, i - |a| - 1))
  {
    var s := a + [c] + b;
    assert forall k :: 0 <= k < |p| ==> s[i + k] == p[k] && p[k] in p;
    assert s[|a|] == c;
    if i + |p| <= |a| {
      assert s[i..i + |p|] == a[i..i + |p|];
    } else {
      assert s[i..i + |p|] == b[i - |a| - 1..i - |a| - 1 + |p|];
    }
  }

  // ---- white space ----

  /** `str.isspace` of one character. */
  predicate IsSpace(c: char) {
    || '\t' <= c <= '\r' || '\U{1c}' <= c <= ' '
    || c == '\U{85}' || c == '\U{a0}' || c == '\U{1680}'
    || c == '\U{2028}' || c == '\U{2029}' || c == '\U{202f}' || c == '\U{205f}' || c == '\U{3000}'
    || '\U{2000}' <= c <= '\U{200a}'
  }

  /** The characters of white space within ASCII, and of those the ones at which `splitlines` ends a line. */
  lemma SpacesInAscii(c: char)
    requires c < '\U{80}'
    ensures IsSpace(c) <==> c == ' ' || c in ASCII_BREAKS || c == '\t' || c == '\U{1f}'
    ensures IsLineBreak(c) <==> c in ASCII_BREAKS
  {
    assert ASCII_BREAKS[0] == '\n' && ASCII_BREAKS[1] == '\U{b}' && ASCII_BREAKS[2] == '\U{c}' && ASCII_BREAKS[3] == '\r';
    assert ASCII_BREAKS[4] == '\U{1c}' && ASCII_BREAKS[5] == '\U{1d}' && ASCII_BREAKS[6] == '\U{1e}';
  }

  const ASCII_BREAKS := "\n\U{b}\U{c}\r\U{1c}\U{1d}\U{1e}"

  function LStrip(s: string): string {
    if s != "" && IsSpace(s[0]) then LStrip(s[1..]) else s
  }

  function RStrip(s: string): string {
    if s != "" && IsSpace(s[|s| - 1]) then RStrip(s[..|s| - 1]) else s
  }

  lemma {:induction false} LStripConcat(a: string, b: string)
    ensures LStrip(a + b) == if LStrip(a) == "" then LStrip(b) else LStrip(a) + b
  {
    if a == "" {
      assert a + b == b;
    } else {
      assert (a + b)[1..] == a[1..] + b && (a + b)[0] == a[0];
      LStripConcat(a[1..], b);
    }
  }

  lemma {:induction false} RStripPrefix(s: string)
    ensures RStrip(s) <= s
  {
    if s != "" && IsSpace(s[|s| - 1]) { RStripPrefix(s[..|s| - 1]); }
  }

  /** `s.strip()` */
  function Strip(s: string): string {
    RStrip(LStrip(s))
  }

  predicate AllSpace(s: string) {
    forall c <- s :: IsSpace(c)
  }

  /** A text that is empty, or neither begins nor ends with white space. */
  predicate IsCore(s: string) {
    s == "" || (!IsSpace(s[0]) && !IsSpace(s[|s| - 1]))
  }

  lemma {:induction false} LStripSpace(a: string, b: string)
    requires AllSpace(a)
    ensures LStrip(a + b) == LStrip(b)
  {
    hide IsSpace;
    if a == "" {
      assert a + b == b;
    } else {
      assert (a + b)[1..] == a[1..] + b && (a + b)[0] == a[0];
      LStripSpace(a[1..], b);
    }
  }

  lemma {:induction false} RStripSpace(a: string, b: string)
    requires AllSpace(b)
    ensures RStrip(a + b) == RStrip(a)
  {
    hide IsSpace;
    if b == "" {
      assert a + b == a;
    } else {
      var n := |b| - 1;
      assert (a + b)[..|a| + n] == a + b[..n] && (a + b)[|a| + n] == b[n];
      RStripSpace(a, b[..n]);
    }
  }

  lemma {:induction false} LStripRest(s: string) returns (a: string)
    ensures AllSpace(a) && s == a + LStrip(s) && (LStrip(s) != "" ==> !IsSpace(LStrip(s)[0]))
  {
    hide IsSpace;
    if s != "" && IsSpace(s[0]) {
      assert LStrip(s) == LStrip(s[1..]) && s == [s[0]] + s[1..];
      hide LStrip;
      var t := LStripRest(s[1..]);
      a := [s[0]] + t;
      Assoc([s[0]], t, LStrip(s));
    } else {
      a := "";
    }
  }

  lemma {:induction false} RStripRest(s: string) returns (b: string)
    ensures AllSpace(b) && s == RStrip(s) + b && (RStrip(s) != "" ==> !IsSpace(RStrip(s)[|RStrip(s)| - 1]))
  {
    hide IsSpace;
    if s != "" && IsSpace(s[|s| - 1]) {
      var n := |s| - 1;
      assert RStrip(s) == RStrip(s[..n]) && s == s[..n] + [s[n]];
      hide RStrip;
      var t := RStripRest(s[..n]);
      b := t + [s[n]];
      Assoc(RStrip(s), t, [s[n]]);
    } else {
      b := "";
    }
  }

  /** What is stripped is the white space around a core. */
  lemma StripRest(s: string) returns (a: string, b: string)
    ensures AllSpace(a) && AllSpace(b) && IsCore(Strip(s)) && s == a + Strip(s) + b
  {
    a := LStripRest(s);
    b := RStripRest(LStrip(s));
    assert Strip(s) != "" ==> Strip(s)[0] == LStrip(s)[0];
    hide LStrip, RStrip;
  }

  lemma StripIs(a: string, core: string, b: string)
    requires AllSpace(a) && AllSpace(b) && IsCore(core)
    ensures Strip(a + core + b) == core
  {
    Assoc(a, core, b);
    LStripSpace(a, core + b);
    if core == "" {
      assert core + b == b && b + "" == b;
      LStripSpace(b, "");
    } else {
      assert (core + b)[0] == core[0];
      RStripSpace(core, b);
    }
  }

  /** `s.lower()`, on ASCII letters. */
  function Lower(s: string): (r: string)
    ensures |r| == |s|
  {
    if s == "" then ""
    else [if 'A' <= s[0] <= 'Z' then (s[0] as int + 32) as char else s[0]] + Lower(s[1..])
  }

  // ---- split and join ----

  /** `s.split(c)` for a single character `c`. */
  function Split(s: string, c: char): (parts: seq<string>)
    ensures |parts| >= 1
  {
    if s == "" then [""]
    else
      var rest := Split(s[1..], c);
      if s[0] == c then [""] + rest else [[s[0]] + rest[0]] + rest[1..]
  }

  lemma {:induction false} LowerAt(s: string, i: nat)
    requires i < |s|
    ensures Lower(s)[i] == if 'A' <= s[i] <= 'Z' then (s[i] as int - 'A' as int + 'a' as int) as char else s[i]
  {
    if i > 0 { LowerAt(s[1..], i - 1); }
  }

  /** `sep.join(parts)` */
  function Join(parts: seq<string>, sep: string): string {
    if parts == [] then ""
    else if |parts| == 1 then parts[0]
    else parts[0] + sep + Join(parts[1..], sep)
  }

  lemma {:induction false} SplitPlain(s: string, c: char)
    requires c !in s
    ensures Split(s, c) == [s]
  {
    if s != "" {
      SplitPlain(s[1..], c);
      assert [s[0]] + s[1..] == s;
    }
  }

  lemma {:induction false} SplitAppend(a: string, c: char, b: string)
    requires c !in a
    ensures Split(a + [c] + b, c) == [a] + Split(b, c)
  {
    var s := a + [c] + b;
    if a == "" {
      assert s == [c] + b;
      assert s[1..] == b;
    } else {
      assert s[1..] == a[1..] + [c] + b;
      SplitAppend(a[1..], c, b);
      assert [a[0]] + a[1..] == a;
    }
  }

  lemma {:induction false} SplitParts(s: string, c: char)
    ensures forall part <- Split(s, c) :: c !in part
  {
    if s != "" { SplitParts(s[1..], c); }
  }

  lemma {:induction false} JoinSplit(s: string, c: char)
    ensures Join(Split(s, c), [c]) == s
  {
    if s != "" {
      JoinSplit(s[1..], c);
      var rest := Split(s[1..], c);
      if s[0] != c && |rest| > 1 {
        assert ([[s[0]] + rest[0]] + rest[1..])[1..] == rest[1..];
      } else if s[0] == c {
        assert ([""] + rest)[1..] == rest;
      }
    }
  }

  lemma {:induction false} SplitJoin(parts: seq<string>, c: char)
    requires parts != [] && forall part <- parts :: c !in part
    ensures Split(Join(parts, [c]), c) == parts
  {
    hide Split;
    if |parts| == 1 {
      SplitPlain(parts[0], c);
      assert parts == [parts[0]];
    } else {
      SplitJoin(parts[1..], c);
      SplitAppend(parts[0], c, Join(parts[1..], [c]));
      assert parts == [parts[0]] + parts[1..];
    }
  }

  /** Splitting a text of two parts, however many lines each has. */
  lemma {:induction false} SplitTwo(a: string, b: string)
    ensures Split(a + "\n" + b, '\n') == Split(a, '\n') + Split(b, '\n')
  {
    var s := a + "\n" + b;
    if a == "" {
      assert s[0] == '\n' && s[1..] == b;
      assert Split(s, '\n') == [""] + Split(b, '\n');
    } else {
      assert s[0] == a[0] && s[1..] == a[1..] + "\n" + b;
      SplitTwo(a[1..], b);
      SplitStep(a, '\n');
      SplitStep(s, '\n');
      hide Split;
      WithFirstConcat(a[0], '\n', Split(a[1..], '\n'), Split(b, '\n'));
    }
  }

  /** The parts of a text with one more character in front. */
  function WithFirst(x: char, c: char, parts: seq<string>): seq<string>
    requires parts != []
  {
    if x == c then [""] + parts else [[x] + parts[0]] + parts[1..]
  }

  lemma SplitStep(s: string, c: char)
    requires s != ""
    ensures Split(s, c) == WithFirst(s[0], c, Split(s[1..], c))
  {
  }

  lemma WithFirstConcat(x: char, c: char, a: seq<string>, b: seq<string>)
    requires a != []
    ensures WithFirst(x, c, a + b) == WithFirst(x, c, a) + b
  {
    if x != c { assert (a + b)[1..] == a[1..] + b; }
  }

  lemma WithFirstTail(x: char, c: char, parts: seq<string>)
    requires parts != []
    ensures WithFirst(x, c, parts)[1..] == if x == c then parts else parts[1..]
  {
  }

  /** Each line followed by a newline, as `print` writes it. */
  function Printed(lines: seq<string>): string {
    if lines == [] then "" else lines[0] + "\n" + Printed(lines[1..])
  }

  lemma ConsAppend<T>(xs: seq<T>, ys: seq<T>)
    requires xs != []
    ensures [xs[0]] + (xs[1..] + ys) == xs + ys
  {
  }

  lemma {:induction false} SplitPrinted(lines: seq<string>, rest: string)
    requires forall line <- lines :: '\n' !in line
    ensures Split(Printed(lines) + rest, '\n') == lines + Split(rest, '\n')
  {
    if lines == [] {
      assert Printed(lines) + rest == rest;
      assert lines + Split(rest, '\n') == Split(rest, '\n');
    } else {
      SplitPrinted(lines[1..], rest);
      var tail := Printed(lines[1..]) + rest;
      assert Printed(lines) + rest == lines[0] + ['\n'] + tail;
      SplitAppend(lines[0], '\n', tail);
      ConsAppend(lines, Split(rest, '\n'));
    }
  }

  lemma {:induction false} PrintedConcat(a: seq<string>, b: seq<string>)
    ensures Printed(a + b) == Printed(a) + Printed(b)
  {
    if a == [] {
      assert a + b == b;
    } else {
      PrintedConcat(a[1..], b);
      assert (a + b)[1..] == a[1..] + b;
    }
  }

  lemma {:induction false} PrintedIsJoin(parts: seq<string>)
    requires parts != []
    ensures Printed(parts) == Join(parts, "\n") + "\n"
  {
    if |parts| > 1 { PrintedIsJoin(parts[1..]); }
  }

  // ---- splitlines ----

  /** The characters at which `str.splitlines` ends a line. */
  predicate IsLineBreak(c: char) {
    '\n' <= c <= '\r' || '\U{1c}' <= c <= '\U{1e}' || c == '\U{85}' || c == '\U{2028}' || c == '\U{2029}'
  }

  function LineEnd(s: string): (i: nat)
    ensures i <= |s| && (forall j :: 0 <= j < i ==> !IsLineBreak(s[j])) && (i < |s| ==> IsLineBreak(s[i]))
  {
    if s == "" || IsLineBreak(s[0]) then 0 else 1 + LineEnd(s[1..])
  }

  /** `s.splitlines()`: "\r\n" counts as one break, and a final break opens no line. */
  function SplitLines(s: string): seq<string> {
    if s == "" then []
    else if LineEnd(s) == |s| then [s]
    else [s[..LineEnd(s)]] + SplitLines(BehindBreak(s, LineEnd(s)))
  }

  function BehindBreak(s: string, i: nat): (rest: string)
    requires i < |s|
    ensures |rest| < |s|
  {
    s[i + BreakWidth(s, i)..]
  }

  function BreakWidth(s: string, i: nat): (n: nat)
    requires i < |s|
    ensures 1 <= n && i + n <= |s|
  {
    if s[i] == '\r' && i + 1 < |s| && s[i + 1] == '\n' then 2 else 1
  }

  /** A line at the front of `s` and the break it ends with: "\r\n" if that stands there, or else one character. */
  ghost predicate Breaks(s: string, line: string, b: string) {
    && line + b <= s
    && (b == "\r\n" || (|b| == 1 && IsLineBreak(b[0])))
    && (b == "\r" ==> !(line + "\r\n" <= s))
  }

  predicate NoBreaks(line: string) {
    forall c <- line :: !IsLineBreak(c)
  }

  /** Lines without breaks that make up `s`, each but perhaps the last with a break behind it. */
  ghost predicate AreLines(s: string, lines: seq<string>)
    decreases |lines|
  {
    if lines == [] then s == ""
    else
      && NoBreaks(lines[0])
      && ((|lines| == 1 && s == lines[0] != "")
          || exists b :: Breaks(s, lines[0], b) && AreLines(s[|lines[0] + b|..], lines[1..]))
  }

  lemma WidthIs(s: string, line: string, b: string)
    requires Breaks(s, line, b)
    ensures |line| < |s| && s[|line|] == b[0] && BreakWidth(s, |line|) == |b|
  {
    assert forall j :: |line| <= j < |line + b| ==> s[j] == b[j - |line|];
    assert BreakWidth(s, |line|) == 2 ==> line + "\r\n" == s[..|line| + 2];
  }

  lemma BreakIs(s: string, line: string, b: string)
    requires Breaks(s, line, b) && NoBreaks(line)
    ensures LineEnd(s) == |line| < |s| && BehindBreak(s, |line|) == s[|line + b|..] && s[..|line|] == line
  {
    WidthIs(s, line, b);
    BreakHere(s, line, b);
    hide LineEnd, BreakWidth, IsLineBreak, Breaks, NoBreaks;
  }

  lemma BreakHere(s: string, line: string, b: string)
    requires Breaks(s, line, b) && NoBreaks(line)
    ensures LineEnd(s) == |line| && s[..|line|] == line
  {
    WidthIs(s, line, b);
    assert IsLineBreak(b[0]);
    hide LineEnd, BreakWidth, IsLineBreak;
    assert forall j :: 0 <= j < |line| ==> s[j] == line[j] && line[j] in line;
  }

  lemma BreakThere(s: string) returns (b: string)
    requires LineEnd(s) < |s|
    ensures Breaks(s, s[..LineEnd(s)], b) && BehindBreak(s, LineEnd(s)) == s[|s[..LineEnd(s)] + b|..]
  {
    hide LineEnd;
    var i := LineEnd(s);
    b := s[i..i + BreakWidth(s, i)];
    var line := s[..i];
    assert line + b == s[..i + BreakWidth(s, i)];
    if line + "\r\n" <= s {
      assert s[i] == (line + "\r\n")[i] && s[i + 1] == (line + "\r\n")[i + 1];
    }
  }

  lemma {:induction false} SplitLinesAreLines(s: string)
    ensures AreLines(s, SplitLines(s))
    decreases |s|
  {
    if s != "" {
      var line := s[..LineEnd(s)];
      assert NoBreaks(line);
      if LineEnd(s) < |s| {
        var b := BreakThere(s);
        SplitLinesAreLines(BehindBreak(s, LineEnd(s)));
        hide LineEnd, Breaks, BehindBreak, BreakWidth;
        assert SplitLines(s)[0] == line && SplitLines(s)[1..] == SplitLines(BehindBreak(s, LineEnd(s)));
      }
    }
  }

  lemma SplitLinesUnfolds(s: string)
    requires LineEnd(s) < |s|
    ensures SplitLines(s) == [s[..LineEnd(s)]] + SplitLines(BehindBreak(s, LineEnd(s)))
  {
    hide LineEnd, BehindBreak;
  }

  lemma {:induction false} LinesAreSplitLines(s: string, lines: seq<string>)
    requires AreLines(s, lines)
    ensures lines == SplitLines(s)
    decreases |lines|
  {
    if lines != [] {
      if b :| Breaks(s, lines[0], b) && AreLines(s[|lines[0] + b|..], lines[1..]) {
        hide LineEnd, Breaks, BehindBreak, BreakWidth, AreLines, SplitLines;
        BreakIs(s, lines[0], b);
        SplitLinesUnfolds(s);
        LinesAreSplitLines(s[|lines[0] + b|..], lines[1..]);
        assert lines == [lines[0]] + lines[1..];
      } else {
        assert LineEnd(s) == |s|;
      }
    }
  }

  /** `splitlines` gives exactly the lines that make up the text. */
  lemma SplitLinesExactly(s: string, lines: seq<string>)
    ensures lines == SplitLines(s) <==> AreLines(s, lines)
  {
    SplitLinesAreLines(s);
    if AreLines(s, lines) { LinesAreSplitLines(s, lines); }
  }

  /** The text between positions `a` and `b` is one newline-separated line of `s`. */
  ghost predicate LineAt(s: string, a: nat, b: nat) {
    a <= b <= |s| && (a == 0 || s[a - 1] == '\n') && (b == |s| || s[b] == '\n')
  }

  lemma {:induction false} FirstLine(s: string)
    ensures var f := Split(s, '\n')[0]; f <= s && LineAt(s, 0, |f|)
  {
    if s != "" && s[0] != '\n' { FirstLine(s[1..]); }
  }

  lemma LineOfTail(s: string, d: string, a: nat)
    requires s != "" && LineAt(s[1..], a, a + |d|) && s[1..][a..a + |d|] == d && (a > 0 || s[0] == '\n')
    ensures LineAt(s, a + 1, a + 1 + |d|) && s[a + 1..a + 1 + |d|] == d
  {
    var b := a + |d|;
    assert forall k :: 0 <= k < b - a ==> s[a + 1..b + 1][k] == s[1..][a..b][k];
  }

  lemma LaterIsBehind(s: string, d: string, c: char)
    requires d in Split(s, c)[1..]
    ensures s != "" && d in if s[0] == c then Split(s[1..], c) else Split(s[1..], c)[1..]
  {
    SplitStep(s, c);
    WithFirstTail(s[0], c, Split(s[1..], c));
  }

  lemma {:induction false} LaterLine(s: string, d: string) returns (a: nat)
    requires d in Split(s, '\n')[1..]
    ensures a > 0 && LineAt(s, a, a + |d|) && s[a..a + |d|] == d
    decreases |s|, 0
  {
    hide Split, LineAt;
    LaterIsBehind(s, d, '\n');
    if s[0] == '\n' {
      a := SplitHasLineAt(s[1..], d);
    } else {
      a := LaterLine(s[1..], d);
    }
    LineOfTail(s, d, a);
    a := a + 1;
  }

  lemma {:induction false} SplitHasLineAt(s: string, d: string) returns (a: nat)
    requires d in Split(s, '\n')
    ensures LineAt(s, a, a + |d|) && s[a..a + |d|] == d
    decreases |s|, 1
  {
    if d == Split(s, '\n')[0] {
      FirstLine(s);
      a := 0;
    } else {
      a := LaterLine(s, d);
    }
  }

  lemma NoBreakInside(s: string, d: string, a: nat, i: nat)
    requires forall c <- d :: !IsLineBreak(c)
    requires a + |d| <= |s| && s[a..a + |d|] == d
    requires i < |s| && IsLineBreak(s[i])
    ensures a + |d| <= i || i < a
  {
    assert forall k :: 0 <= k < |d| ==> s[a + k] == d[k] && d[k] in d;
  }

  lemma LineAtTail(s: string, d: string, a: nat, q: nat)
    requires LineAt(s, a, a + |d|) && s[a..a + |d|] == d && q <= a
    ensures LineAt(s[q..], a - q, a - q + |d|) && s[q..][a - q..a - q + |d|] == d
  {
  }

  lemma SplitLinesStep(s: string, d: string)
    requires s != "" && LineEnd(s) < |s| && (d == s[..LineEnd(s)] || d in SplitLines(BehindBreak(s, LineEnd(s))))
    ensures d in SplitLines(s)
  {
    hide LineEnd, BehindBreak;
    var rest := SplitLines(BehindBreak(s, LineEnd(s)));
    assert SplitLines(s) == [s[..LineEnd(s)]] + rest;
    hide SplitLines;
  }

  lemma {:induction false} LineAtIsSplitLine(s: string, d: string, a: nat)
    requires d != "" && (forall c <- d :: !IsLineBreak(c))
    requires LineAt(s, a, a + |d|) && s[a..a + |d|] == d
    ensures d in SplitLines(s)
  {
    var i := LineEnd(s);
    if i == |s| {
      assert a == 0 && s == d;
    } else {
      hide SplitLines;
      NoBreakInside(s, d, a, i);
      if a + |d| <= i {
        assert a == 0 && s[..i] == d;
      } else {
        var q := i + BreakWidth(s, i);
        LineAtTail(s, d, a, q);
        LineAtIsSplitLine(BehindBreak(s, i), d, a - q);
      }
      SplitLinesStep(s, d);
    }
  }

  /** `splitlines` splits at least as finely as "\n": no plain line escapes it. */
  lemma SplitLinesIsFiner(s: string, d: string)
    requires d != "" && (forall c <- d :: !IsLineBreak(c))
    requires d in Split(s, '\n')
    ensures d in SplitLines(s)
  {
    var a := SplitHasLineAt(s, d);
    LineAtIsSplitLine(s, d, a);
  }
}
