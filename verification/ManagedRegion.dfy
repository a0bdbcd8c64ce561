/**
 The managed region of `.env.example` (tools/generate_env_reference.py): the
 generated backend block lives between two marker lines, and everything outside
 the markers belongs to the people who edit the file.
 */
module ManagedRegion {
  import opened Wrappers
  import opened Text

  /** The two lines that delimit the managed region. */
  datatype Markers = Markers(begin: string, end: string) {
    predicate OneLineEach() {
      begin != "" && IsOneLine(begin) && end != "" && IsOneLine(end)
    }
  }

  const BEGIN_HEAD := "# >>> generated by "
  const BEGIN_TOOL := "tools/generate_env_reference.py"
  const BEGIN_TAIL := " — do not edit (backend, "
  const BEGIN_SOURCE := "from config.py) >>>"
  const BEGIN_MARKER := BEGIN_HEAD + BEGIN_TOOL + BEGIN_TAIL + BEGIN_SOURCE
  const END_MARKER := "# <<< end generated (backend) <<<"
  const FRONTEND_HEADER := "# Frontend Configuration"

  predicate IsOneLine(s: string) {
    '\n' !in s && '\r' !in s
  }

  lemma OneLineConcat(a: string, b: string)
    requires IsOneLine(a) && IsOneLine(b)
    ensures IsOneLine(a + b)
  {
  }

  lemma BeginHeadIsLine() ensures IsOneLine(BEGIN_HEAD) { }

  lemma BeginToolIsLine() ensures IsOneLine(BEGIN_TOOL) { }

  lemma BeginTailIsLine() ensures IsOneLine(BEGIN_TAIL) { }

  lemma BeginSourceIsLine() ensures IsOneLine(BEGIN_SOURCE) { }

  lemma EndIsLine() ensures IsOneLine(END_MARKER) { }

  /** All that the laws below need to know of the markers in use. */
  lemma EnvMarkersAreLines()
    ensures Markers(BEGIN_MARKER, END_MARKER).OneLineEach()
  {
    BeginHeadIsLine();
    BeginToolIsLine();
    BeginTailIsLine();
    BeginSourceIsLine();
    EndIsLine();
    OneLineConcat(BEGIN_HEAD, BEGIN_TOOL);
    OneLineConcat(BEGIN_HEAD + BEGIN_TOOL, BEGIN_TAIL);
    OneLineConcat(BEGIN_HEAD + BEGIN_TOOL + BEGIN_TAIL, BEGIN_SOURCE);
  }

  function Inner(block: string): string {
    "\n" + block + "\n"
  }

  function Managed(m: Markers, block: string): string {
    m.begin + Inner(block) + m.end
  }

  // ---- the hand-written frontend section of a file without markers ----

  /** `line.lstrip().startswith("#")` */
  predicate IsComment(line: string) {
    line != "" && (if IsSpace(line[0]) then IsComment(line[1..]) else line[0] == '#')
  }

  /** `text.strip("\n")` */
  function StripNewlines(s: string): string {
    if s == "" then ""
    else if s[0] == '\n' then StripNewlines(s[1..])
    else if s[|s| - 1] == '\n' then StripNewlines(s[..|s| - 1])
    else s
  }

  /** The first line that names the frontend section. */
  function HeaderIndex(lines: seq<string>): (r: nat)
    ensures r <= |lines|
    ensures forall i :: 0 <= i < r ==> !Contains(FRONTEND_HEADER, lines[i])
    ensures r < |lines| ==> Contains(FRONTEND_HEADER, lines[r])
  {
    if lines == [] || Contains(FRONTEND_HEADER, lines[0]) then 0 else 1 + HeaderIndex(lines[1..])
  }

  /** The top of the run of comment lines that ends just above line `k`. */
  function BannerStart(lines: seq<string>, k: nat): (r: nat)
    requires k <= |lines|
    ensures r <= k && (forall i :: r <= i < k ==> IsComment(lines[i]))
    ensures r > 0 ==> !IsComment(lines[r - 1])
  {
    if k > 0 && IsComment(lines[k - 1]) then BannerStart(lines, k - 1) else k
  }

  function Frontend(e: string): string {
    var lines := SplitLines(e);
    var k := HeaderIndex(lines);
    if k == |lines| then "" else StripNewlines(Join(lines[BannerStart(lines, k)..], "\n"))
  }

  // ---- rendering ----

  /** The text a render keeps before and after the managed region. */
  function Frame(m: Markers, existing: Option<string>): (string, string) {
    match existing
    case None => ("", "\n")
    case Some(e) =>
      if Contains(m.begin, e) && Contains(m.end, e) then
        (Partition(e, m.begin).0, Partition(Partition(e, m.begin).1, m.end).1)
      else if Frontend(e) != "" then ("", "\n\n" + Frontend(e) + "\n")
      else ("", "\n")
  }

  function Render(m: Markers, existing: Option<string>, block: string): string {
    Frame(m, existing).0 + Managed(m, block) + Frame(m, existing).1
  }

  method FrontendSection(e: string) returns (frontend: string)
    ensures frontend == Frontend(e)
  {
    hide SplitLines, Contains, IsComment, StripNewlines, Join;
    var lines := SplitLines(e);
    var start := 0;
    while start < |lines| && !Contains(FRONTEND_HEADER, lines[start])
      invariant start <= |lines|
      invariant HeaderIndex(lines) == start + HeaderIndex(lines[start..])
    {
      assert lines[start..][1..] == lines[start + 1..];
      start := start + 1;
    }
    if start == |lines| {
      return "";
    }
    ghost var k := start;
    while start > 0 && IsComment(lines[start - 1])
      invariant start <= k
      invariant BannerStart(lines, k) == BannerStart(lines, start)
    {
      start := start - 1;
    }
    return StripNewlines(Join(lines[start..], "\n"));
  }

  lemma FrameOfBoth(m: Markers, e: string)
    requires Contains(m.begin, e) && Contains(m.end, e)
    ensures Frame(m, Some(e)) == (Partition(e, m.begin).0, Partition(Partition(e, m.begin).1, m.end).1)
  {
  }

  /** Without both markers only the hand-written frontend section is kept. */
  lemma FrameOfFrontend(m: Markers, e: string)
    requires !(Contains(m.begin, e) && Contains(m.end, e))
    ensures Frame(m, Some(e)).0 == ""
    ensures Frame(m, Some(e)).1 == if Frontend(e) != "" then "\n\n" + Frontend(e) + "\n" else "\n"
  {
    hide Frontend;
  }

  lemma FrameOfNothing(m: Markers)
    ensures Frame(m, None).0 == "" && Frame(m, None).1 == "\n"
    ensures m.OneLineEach() ==> Frame(m, Some("")).0 == "" && Frame(m, Some("")).1 == "\n"
  {
    assert SplitLines("") == [];
  }

  /** `render_env_example`, given the rendered backend block. */
  method RenderEnvExample(m: Markers, existing: Option<string>, block: string) returns (text: string)
    requires m.OneLineEach()
    ensures text == Render(m, existing, block)
  {
    hide Frame, Managed, Contains, Partition, Frontend;
    var managed := Managed(m, block);
    assert "" + managed == managed;
    FrameOfNothing(m);
    if existing.Some? && existing.value != "" {
      var e := existing.value;
      if Contains(m.begin, e) && Contains(m.end, e) {
        var (head, rest) := Partition(e, m.begin);
        var (_, tail) := Partition(rest, m.end);
        FrameOfBoth(m, e);
        return head + managed + tail;
      }
      var frontend := FrontendSection(e);
      FrameOfFrontend(m, e);
      if frontend != "" {
        return managed + ("\n\n" + frontend + "\n");
      }
    }
    return managed + "\n";
  }

  // ---- the first render, of a file without both markers ----

  predicate OnlyNewlines(s: string) {
    forall c <- s :: c == '\n'
  }

  lemma {:induction false} NewlinesStripped(s: string) returns (a: string, b: string)
    ensures s == a + StripNewlines(s) + b && OnlyNewlines(a) && OnlyNewlines(b)
    ensures var t := StripNewlines(s); t != "" ==> t[0] != '\n' && t[|t| - 1] != '\n'
  {
    a, b := "", "";
    if s != "" && s[0] == '\n' {
      a, b := NewlinesStripped(s[1..]);
      assert s == ['\n'] + s[1..];
      a := ['\n'] + a;
    } else if s != "" && s[|s| - 1] == '\n' {
      a, b := NewlinesStripped(s[..|s| - 1]);
      assert s == s[..|s| - 1] + ['\n'];
      b := b + ['\n'];
    }
  }

  lemma {:induction false} CommentIsStripped(line: string)
    ensures IsComment(line) <==> LStrip(line) != "" && LStrip(line)[0] == '#'
  {
    if line != "" && IsSpace(line[0]) { CommentIsStripped(line[1..]); }
  }

  /** Line `k` is the first that names the frontend section. */
  ghost predicate IsHeaderLine(lines: seq<string>, k: nat) {
    && k < |lines| && (exists i :: OccursAt("# Frontend Configuration", lines[k], i))
    && forall j, i :: 0 <= j < k ==> !OccursAt("# Frontend Configuration", lines[j], i)
  }

  /** The comment lines directly above line `k` begin at line `s`. */
  ghost predicate IsBanner(lines: seq<string>, s: nat, k: nat)
    requires k <= |lines|
  {
    && s <= k
    && (forall i :: s <= i < k ==> LStrip(lines[i]) != "" && LStrip(lines[i])[0] == '#')
    && (s > 0 ==> !(LStrip(lines[s - 1]) != "" && LStrip(lines[s - 1])[0] == '#'))
  }

  /** What is kept of a text: all of it but newlines at either end. */
  ghost predicate IsTrimmed(whole: string, t: string) {
    && (exists a, b :: OnlyNewlines(a) && OnlyNewlines(b) && whole == a + t + b)
    && t != "" && t[0] != '\n' && t[|t| - 1] != '\n'
  }

  lemma {:induction false} JoinHoldsFirst(lines: seq<string>, c: char, k: nat)
    requires k < |lines| && c in lines[k]
    ensures c in Join(lines, "\n")
  {
    if k == 0 {
      assert lines[0] <= Join(lines, "\n");
    } else {
      JoinHoldsFirst(lines[1..], c, k - 1);
    }
  }

  lemma HeaderIsFound(lines: seq<string>, k: nat)
    requires IsHeaderLine(lines, k)
    ensures HeaderIndex(lines) == k && Contains(FRONTEND_HEADER, lines[k]) && '#' in lines[k]
  {
    var i :| OccursAt("# Frontend Configuration", lines[k], i);
    assert lines[k][i] == "# Frontend Configuration"[0];
    var r := HeaderIndex(lines);
    assert forall j :: 0 <= j < k ==> !Contains(FRONTEND_HEADER, lines[j]);
  }

  lemma BannerIsFound(lines: seq<string>, s: nat, k: nat)
    requires k <= |lines| && IsBanner(lines, s, k)
    ensures BannerStart(lines, k) == s
  {
    forall i | 0 <= i < |lines| ensures IsComment(lines[i]) <==> LStrip(lines[i]) != "" && LStrip(lines[i])[0] == '#' {
      CommentIsStripped(lines[i]);
    }
    hide IsComment, LStrip;
    var r := BannerStart(lines, k);
    assert r > 0 ==> !IsComment(lines[r - 1]);
    assert s > 0 ==> !IsComment(lines[s - 1]);
  }

  /**
   The first render of a file without both markers keeps the frontend section
   below the new region: from the comment lines directly above the first line
   that names it to the end of the file, but for newlines at either end.
   */
  lemma FrontendIsKept(m: Markers, e: string, block: string, k: nat, s: nat)
    requires !(Contains(m.begin, e) && Contains(m.end, e))
    requires var lines := SplitLines(e); IsHeaderLine(lines, k) && IsBanner(lines, s, k)
    ensures exists t ::
              IsTrimmed(Join(SplitLines(e)[s..], "\n"), t)
              && Render(m, Some(e), block) == m.begin + ("\n" + block + "\n") + m.end + ("\n\n" + t + "\n")
  {
    FrontendText(e, k, s);
    hide IsHeaderLine, IsBanner, SplitLines, Contains, Frontend, Join, IsTrimmed;
    assert Frontend(e) != "" by { TrimmedIsThere(Join(SplitLines(e)[s..], "\n"), Frontend(e)); }
    RenderOfFrontend(m, e, block);
  }

  lemma TrimmedIsThere(whole: string, t: string)
    requires IsTrimmed(whole, t)
    ensures t != ""
  {
  }

  lemma RenderOfFrontend(m: Markers, e: string, block: string)
    requires !(Contains(m.begin, e) && Contains(m.end, e)) && Frontend(e) != ""
    ensures Render(m, Some(e), block) == m.begin + ("\n" + block + "\n") + m.end + ("\n\n" + Frontend(e) + "\n")
  {
    FrameOfFrontend(m, e);
    hide Frame, Frontend;
    assert "" + Managed(m, block) == Managed(m, block);
  }

  lemma FrontendText(e: string, k: nat, s: nat)
    requires var lines := SplitLines(e); IsHeaderLine(lines, k) && IsBanner(lines, s, k)
    ensures IsTrimmed(Join(SplitLines(e)[s..], "\n"), Frontend(e))
  {
    var lines := SplitLines(e);
    HeaderIsFound(lines, k);
    BannerIsFound(lines, s, k);
    var whole := Join(lines[s..], "\n");
    assert Frontend(e) == StripNewlines(whole);
    JoinHoldsFirst(lines[s..], '#', k - s);
    hide SplitLines, IsHeaderLine, IsBanner, HeaderIndex, BannerStart, StripNewlines, Join, Frontend;
    TrimmedText(whole);
  }

  lemma TrimmedText(whole: string)
    requires '#' in whole
    ensures IsTrimmed(whole, StripNewlines(whole))
  {
    var a, b := NewlinesStripped(whole);
    hide StripNewlines;
    assert StripNewlines(whole) == "" ==> whole == a + b;
  }

  /** Without such a line the first render is the region alone. */
  lemma NothingIsKept(m: Markers, e: string, block: string)
    requires !(Contains(m.begin, e) && Contains(m.end, e))
    requires forall line, i :: line in SplitLines(e) ==> !OccursAt("# Frontend Configuration", line, i)
    ensures Render(m, Some(e), block) == m.begin + ("\n" + block + "\n") + m.end + "\n"
    ensures Render(m, None, block) == Render(m, Some(e), block)
  {
    hide SplitLines;
    var lines := SplitLines(e);
    assert HeaderIndex(lines) == |lines|;
    FrameOfFrontend(m, e);
  }

  // ---- regeneration ----

  /** Where the markers of a rendered text are found again. */
  lemma Reopen(m: Markers, head: string, block: string, tail: string)
    requires Find(m.begin, head + m.begin) == Some(|head|)
    ensures var e := head + Managed(m, block) + tail;
            && Contains(m.begin, e) && Contains(m.end, e)
            && Partition(e, m.begin) == (head, Inner(block) + m.end + tail)
  {
    Regroup(head, m.begin, Inner(block), m.end, tail);
    PartitionFirst(head, m.begin, Inner(block) + m.end + tail);
    ContainsAt(m.end, head + m.begin + Inner(block), tail);
  }

  lemma InnerHides(m: Markers, block: string, j: nat)
    requires m.OneLineEach() && !Contains(m.end, block) && j < |Inner(block)|
    ensures !OccursAt(m.end, Inner(block) + m.end, j)
  {
    var s := Inner(block) + m.end;
    if OccursAt(m.end, s, j) {
      assert s == "" + ['\n'] + (block + ['\n'] + m.end);
      OccursAround(m.end, "", '\n', block + ['\n'] + m.end, j);
      OccursAround(m.end, block, '\n', m.end, j - 1);
    }
  }

  /** The END marker closes the region, unless the block itself holds one. */
  lemma CloseAt(m: Markers, block: string, tail: string)
    requires m.OneLineEach()
    ensures var after := Partition(Inner(block) + m.end + tail, m.end).1;
            if Contains(m.end, block) then |after| > |tail| else after == tail
  {
    var before := Inner(block);
    if Contains(m.end, block) {
      var i := Find(m.end, block).value;
      var rest := before + m.end + tail;
      assert rest[i + 1..i + 1 + |m.end|] == block[i..i + |m.end|];
      assert OccursAt(m.end, rest, i + 1);
    } else {
      assert OccursAt(m.end, before + m.end, |before|);
      forall j | 0 <= j < |before| ensures !OccursAt(m.end, before + m.end, j) {
        InnerHides(m, block, j);
      }
      FoundAt(m.end, before + m.end, |before|);
      PartitionFirst(before, m.end, tail);
    }
  }

  lemma FrameHead(m: Markers, existing: Option<string>)
    ensures Find(m.begin, Frame(m, existing).0 + m.begin) == Some(|Frame(m, existing).0|)
  {
    var head := Frame(m, existing).0;
    if head != "" {
      FirstStaysFirst(m.begin, existing.value);
    } else {
      FirstInItself(m.begin);
      assert "" + m.begin == m.begin;
    }
  }

  lemma FrameAgain(m: Markers, existing: Option<string>, block: string)
    requires m.OneLineEach()
    ensures var again := Frame(m, Some(Render(m, existing, block)));
            && again.0 == Frame(m, existing).0
            && if Contains(m.end, block) then |again.1| > |Frame(m, existing).1| else again.1 == Frame(m, existing).1
  {
    FrameHead(m, existing);
    Reopen(m, Frame(m, existing).0, block, Frame(m, existing).1);
    CloseAt(m, block, Frame(m, existing).1);
  }

  /**
   The regeneration law: a second render forgets the first one.  It holds for
   every existing text exactly when the first block holds no END marker.
   */
  lemma Regeneration(m: Markers, existing: Option<string>, first: string, second: string)
    requires m.OneLineEach()
    ensures Render(m, Some(Render(m, existing, first)), second) == Render(m, existing, second)
       <==> !Contains(m.end, first)
  {
    FrameAgain(m, existing, first);
    if !Contains(m.end, first) {
      assert Frame(m, Some(Render(m, existing, first))) == Frame(m, existing);
    }
  }

  /** What stands outside a well-placed pair of markers survives character for character. */
  lemma OutsideIsPreserved(m: Markers, head: string, old_: string, tail: string, block: string)
    requires Find(m.begin, head + m.begin) == Some(|head|)
    requires Find(m.end, old_ + m.end) == Some(|old_|)
    ensures Render(m, Some(head + m.begin + old_ + m.end + tail), block) == head + Managed(m, block) + tail
  {
    Regroup(head, m.begin, old_, m.end, tail);
    PartitionFirst(head, m.begin, old_ + m.end + tail);
    PartitionFirst(old_, m.end, tail);
    ContainsAt(m.end, head + m.begin + old_, tail);
    assert Frame(m, Some(head + m.begin + old_ + m.end + tail)) == (head, tail);
  }

  /** With the END marker only before BEGIN, everything after BEGIN is lost. */
  lemma UnclosedRegionSwallowsTheRest(m: Markers, head: string, rest: string)
    requires Find(m.begin, head + m.begin) == Some(|head|)
    requires Contains(m.end, head) && !Contains(m.end, rest)
    ensures Frame(m, Some(head + m.begin + rest)) == (head, "")
  {
    PartitionFirst(head, m.begin, rest);
    PartitionAbsent(rest, m.end);
    ContainsInFirst(m.end, head, m.begin, rest);
    FrameOfBoth(m, head + m.begin + rest);
  }

  /** A render that keeps all of `e` around a region that an END closes. */
  predicate KeepsAround(m: Markers, e: string, block: string, head: string, old_: string, tail: string) {
    e == head + m.begin + (old_ + m.end + tail) && Render(m, Some(e), block) == head + Managed(m, block) + tail
  }

  /**
   Of a text with both markers the render keeps all but a region closed by END
   exactly when END occurs behind the first BEGIN; otherwise it drops all that
   follows BEGIN.
   */
  lemma TailIsKeptExactly(m: Markers, e: string, block: string)
    requires Contains(m.begin, e) && Contains(m.end, e)
    ensures var (head, rest) := Partition(e, m.begin);
            && ((exists old_, tail :: KeepsAround(m, e, block, head, old_, tail)) <==> Contains(m.end, rest))
            && (!Contains(m.end, rest) ==> Render(m, Some(e), block) == head + Managed(m, block))
  {
    FrameOfBoth(m, e);
    PartitionPresent(e, m.begin);
    var (head, rest) := Partition(e, m.begin);
    hide Frame, Managed;
    if Contains(m.end, rest) {
      PartitionPresent(rest, m.end);
      var (old_, tail) := Partition(rest, m.end);
      hide Partition, Contains;
      assert KeepsAround(m, e, block, head, old_, tail);
    } else {
      PartitionAbsent(rest, m.end);
      hide Partition, Contains;
      assert head + Managed(m, block) + "" == head + Managed(m, block);
      if old_, tail :| KeepsAround(m, e, block, head, old_, tail) {
        SameTail(head + m.begin, rest, old_ + m.end + tail);
        ContainsAt(m.end, old_, tail);
      }
    }
  }

  // ---- `--check` right after a write ----

  /** `Path.read_text`: "\r\n" and "\r" are read as "\n". */
  function ReadText(s: string): (r: string)
    ensures '\r' !in r
    ensures '\r' !in s ==> r == s
  {
    if s == "" then ""
    else if s[0] == '\r' then
      "\n" + ReadText(if |s| > 1 && s[1] == '\n' then s[2..] else s[1..])
    else
      assert '\r' !in s ==> '\r' !in s[1..];
      [s[0]] + ReadText(s[1..])
  }

  /** Reading keeps a line and turns the break behind it, of whatever kind, into a newline. */
  lemma {:induction false} LineIsRead(line: string, b: string, rest: string)
    requires '\r' !in line && b in {"\n", "\r\n", "\r"} && (b == "\r" ==> rest == "" || rest[0] != '\n')
    ensures ReadText(line + (b + rest)) == line + ("\n" + ReadText(rest))
  {
    var s := line + (b + rest);
    if line == "" {
      assert s == b + rest;
      BreakIsRead(b, rest);
      assert "" + ("\n" + ReadText(rest)) == "\n" + ReadText(rest);
    } else {
      assert s[0] == line[0] && s[1..] == line[1..] + (b + rest);
      LineIsRead(line[1..], b, rest);
      Assoc([line[0]], line[1..], "\n" + ReadText(rest));
      assert [line[0]] + line[1..] == line;
    }
  }

  lemma BreakIsRead(b: string, rest: string)
    requires b in {"\n", "\r\n", "\r"} && (b == "\r" ==> rest == "" || rest[0] != '\n')
    ensures ReadText(b + rest) == "\n" + ReadText(rest)
  {
    var s := b + rest;
    if b == "\r\n" {
      assert s[2..] == rest;
    } else {
      assert s[1..] == rest && s[0] == b[0];
    }
  }

  /** `--check` finds no drift in the file a write of `block` has left. */
  predicate CheckPasses(m: Markers, existing: Option<string>, block: string) {
    var current := ReadText(Render(m, existing, block));
    current == Render(m, Some(current), block)
  }

  lemma {:induction false} SplitLinesKeepsOut(s: string, c: char)
    requires c !in s
    ensures forall line <- SplitLines(s) :: c !in line
  {
    if s != "" && LineEnd(s) < |s| {
      SplitLinesKeepsOut(s[LineEnd(s) + BreakWidth(s, LineEnd(s))..], c);
    }
  }

  lemma {:induction false} JoinKeepsOut(parts: seq<string>, c: char)
    requires c != '\n' && forall part <- parts :: c !in part
    ensures c !in Join(parts, "\n")
  {
    if |parts| > 1 { JoinKeepsOut(parts[1..], c); }
  }

  lemma {:induction false} StripKeepsOut(s: string, c: char)
    requires c !in s
    ensures c !in StripNewlines(s)
  {
    if s == "" {
    } else if s[0] == '\n' {
      StripKeepsOut(s[1..], c);
    } else if s[|s| - 1] == '\n' {
      StripKeepsOut(s[..|s| - 1], c);
    }
  }

  lemma FrameKeepsOut(m: Markers, existing: Option<string>)
    requires existing.Some? ==> '\r' !in existing.value
    ensures '\r' !in Frame(m, existing).0 && '\r' !in Frame(m, existing).1
  {
    if existing.Some? {
      var lines := SplitLines(existing.value);
      SplitLinesKeepsOut(existing.value, '\r');
      var k := HeaderIndex(lines);
      if k < |lines| {
        JoinKeepsOut(lines[BannerStart(lines, k)..], '\r');
        StripKeepsOut(Join(lines[BannerStart(lines, k)..], "\n"), '\r');
      }
    }
  }

  lemma RenderShowsBlock(m: Markers, existing: Option<string>, block: string, c: char)
    requires c in block
    ensures c in Render(m, existing, block)
  {
    assert c in Inner(block);
  }

  lemma RenderKeepsOut(m: Markers, existing: Option<string>, block: string)
    requires m.OneLineEach()
    requires existing.Some? ==> '\r' !in existing.value
    requires '\r' !in block
    ensures '\r' !in Render(m, existing, block)
  {
    FrameKeepsOut(m, existing);
  }

  /** The check passes exactly when the block holds neither an END marker nor a carriage return. */
  lemma CheckAfterWrite(m: Markers, existing: Option<string>, block: string)
    requires m.OneLineEach()
    requires existing.Some? ==> '\r' !in existing.value
    ensures CheckPasses(m, existing, block) <==> !Contains(m.end, block) && '\r' !in block
  {
    var current := ReadText(Render(m, existing, block));
    if '\r' in block {
      RenderShowsBlock(m, Some(current), block, '\r');
    } else {
      RenderKeepsOut(m, existing, block);
      Regeneration(m, existing, block, block);
    }
  }

  /**
   The whole check, over the three generated files: it passes right after a
   write exactly when, besides, neither the table nor the manifest holds a
   carriage return.
   */
  lemma WholeCheckAfterWrite(m: Markers, existing: Option<string>, block: string, doc: string, manifest: string)
    requires m.OneLineEach()
    requires existing.Some? ==> '\r' !in existing.value
    ensures CheckPasses(m, existing, block) && ReadText(doc) == doc && ReadText(manifest) == manifest
       <==> !Contains(m.end, block) && '\r' !in block && '\r' !in doc && '\r' !in manifest
  {
    hide CheckPasses;
    CheckAfterWrite(m, existing, block);
  }
}
