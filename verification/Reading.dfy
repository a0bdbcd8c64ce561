/**
 Reading generated text back.  A printer appends texts to a list and joins them
 with newlines; a reader goes through the lines.  Where a text that was meant
 to be one line has several, the reader meets lines nobody meant to print.
 */
module Reading {
  import opened Text

  /** What a reader of single lines finds in some lines. */
  function InLines<T>(read: string -> seq<T>, lines: seq<string>): seq<T> {
    if |lines| == 0 then [] else read(lines[0]) + InLines(read, lines[1..])
  }

  function InText<T>(read: string -> seq<T>, text: string): seq<T> {
    InLines(read, Split(text, '\n'))
  }

  /** What is found in texts of one or more lines each. */
  function InTexts<T>(read: string -> seq<T>, texts: seq<string>): seq<T> {
    if |texts| == 0 then [] else InText(read, texts[0]) + InTexts(read, texts[1..])
  }

  function HeadLine(text: string): string {
    Split(text, '\n')[0]
  }

  /** What is found in the first line of each text. */
  function InFirstLines<T>(read: string -> seq<T>, texts: seq<string>): seq<T> {
    if |texts| == 0 then [] else read(HeadLine(texts[0])) + InFirstLines(read, texts[1..])
  }

  /** Nothing is found in any further line of a text. */
  predicate Quiet<T>(read: string -> seq<T>, text: string) {
    forall line <- Split(text, '\n')[1..] :: |read(line)| == 0
  }

  ghost predicate AllQuiet<T>(read: string -> seq<T>, texts: seq<string>) {
    forall text <- texts :: Quiet(read, text)
  }

  lemma {:induction false} LinesConcat<T>(read: string -> seq<T>, a: seq<string>, b: seq<string>)
    ensures InLines(read, a + b) == InLines(read, a) + InLines(read, b)
  {
    if |a| == 0 {
      assert a + b == b;
    } else {
      LinesConcat(read, a[1..], b);
      assert (a + b)[1..] == a[1..] + b && (a + b)[0] == a[0];
      Assoc(read(a[0]), InLines(read, a[1..]), InLines(read, b));
    }
  }

  lemma {:induction false} TextsConcat<T>(read: string -> seq<T>, a: seq<string>, b: seq<string>)
    ensures InTexts(read, a + b) == InTexts(read, a) + InTexts(read, b)
  {
    hide InText;
    if |a| == 0 {
      assert a + b == b;
    } else {
      TextsConcat(read, a[1..], b);
      assert (a + b)[1..] == a[1..] + b && (a + b)[0] == a[0];
      Assoc(InText(read, a[0]), InTexts(read, a[1..]), InTexts(read, b));
    }
  }

  lemma {:induction false} FirstLinesConcat<T>(read: string -> seq<T>, a: seq<string>, b: seq<string>)
    ensures InFirstLines(read, a + b) == InFirstLines(read, a) + InFirstLines(read, b)
  {
    hide HeadLine;
    if |a| == 0 {
      assert a + b == b;
    } else {
      FirstLinesConcat(read, a[1..], b);
      assert (a + b)[1..] == a[1..] + b && (a + b)[0] == a[0];
      Assoc(read(HeadLine(a[0])), InFirstLines(read, a[1..]), InFirstLines(read, b));
    }
  }

  lemma QuietConcat<T>(read: string -> seq<T>, a: seq<string>, b: seq<string>)
    ensures AllQuiet(read, a + b) <==> AllQuiet(read, a) && AllQuiet(read, b)
  {
    hide Quiet;
    assert forall text :: text in a + b <==> text in a || text in b;
  }

  lemma QuietOne<T>(read: string -> seq<T>, text: string)
    ensures AllQuiet(read, [text]) <==> Quiet(read, text)
  {
    hide Quiet;
    assert text in [text];
  }

  lemma OneText<T>(read: string -> seq<T>, text: string)
    ensures InTexts(read, [text]) == InText(read, text) && InFirstLines(read, [text]) == read(HeadLine(text))
  {
    var rest := [text][1..];
    assert |rest| == 0;
    assert InText(read, text) + InTexts(read, rest) == InText(read, text);
    assert read(HeadLine(text)) + InFirstLines(read, rest) == read(HeadLine(text));
  }

  lemma ConsFirstLines<T>(read: string -> seq<T>, text: string, rest: seq<string>)
    ensures InFirstLines(read, [text] + rest) == read(HeadLine(text)) + InFirstLines(read, rest)
  {
    assert ([text] + rest)[1..] == rest;
  }

  lemma NothingInTwo<T>(read: string -> seq<T>, a: string, b: string)
    requires |read(HeadLine(a))| == 0 && Quiet(read, a) && |read(HeadLine(b))| == 0 && Quiet(read, b)
    ensures |InFirstLines(read, [a, b])| == 0 && AllQuiet(read, [a, b])
  {
    hide HeadLine, Quiet;
    OneText(read, b);
    ConsFirstLines(read, a, [b]);
    assert [a, b] == [a] + [b];
  }

  /** Reading what was joined is reading text by text. */
  lemma {:induction false} JoinedTexts<T>(read: string -> seq<T>, texts: seq<string>)
    requires texts != [] || |read("")| == 0
    ensures InText(read, Join(texts, "\n")) == InTexts(read, texts)
  {
    if |texts| == 0 {
      assert Split("", '\n') == [""];
      var rest := [""][1..];
      assert |rest| == 0;
    } else if |texts| == 1 {
      OneText(read, texts[0]);
      assert texts == [texts[0]];
    } else {
      JoinedTexts(read, texts[1..]);
      SplitTwo(texts[0], Join(texts[1..], "\n"));
      LinesConcat(read, Split(texts[0], '\n'), Split(Join(texts[1..], "\n"), '\n'));
    }
  }

  /** A prefix of one line goes before the first line. */
  lemma {:induction false} SplitPrefixed(p: string, text: string)
    requires '\n' !in p
    ensures HeadLine(p + text) == p + HeadLine(text)
    ensures Split(p + text, '\n')[1..] == Split(text, '\n')[1..]
  {
    if p == "" {
      assert p + text == text && p + HeadLine(text) == HeadLine(text);
    } else {
      SplitPrefixed(p[1..], text);
      assert (p + text)[1..] == p[1..] + text && (p + text)[0] == p[0];
      assert [p[0]] + (p[1..] + HeadLine(text)) == p + HeadLine(text);
    }
  }

  lemma OneLine(text: string)
    requires '\n' !in text
    ensures Split(text, '\n') == [text] && HeadLine(text) == text
    ensures Split(text, '\n')[1..] == []
  {
    SplitPlain(text, '\n');
  }

  lemma {:induction false} NothingInLines<T>(read: string -> seq<T>, lines: seq<string>)
    ensures |InLines(read, lines)| == 0 <==> forall line <- lines :: |read(line)| == 0
  {
    if |lines| > 0 {
      NothingInLines(read, lines[1..]);
      assert lines == [lines[0]] + lines[1..];
    }
  }

  lemma QuietText<T>(read: string -> seq<T>, text: string)
    ensures |InText(read, text)| >= |read(HeadLine(text))|
    ensures |InText(read, text)| == |read(HeadLine(text))| <==> Quiet(read, text)
    ensures Quiet(read, text) ==> InText(read, text) == read(HeadLine(text))
  {
    NothingInLines(read, Split(text, '\n')[1..]);
  }

  /**
   What stray lines show is never made up for elsewhere: exactly when every
   further line is quiet, the texts are read as their first lines are.
   */
  lemma {:induction false} QuietTexts<T>(read: string -> seq<T>, texts: seq<string>)
    ensures |InTexts(read, texts)| >= |InFirstLines(read, texts)|
    ensures |InTexts(read, texts)| == |InFirstLines(read, texts)| <==> AllQuiet(read, texts)
    ensures AllQuiet(read, texts) ==> InTexts(read, texts) == InFirstLines(read, texts)
  {
    hide InText, HeadLine, Quiet;
    if |texts| > 0 {
      QuietText(read, texts[0]);
      QuietTexts(read, texts[1..]);
      assert texts == [texts[0]] + texts[1..];
    }
  }

  lemma {:induction false} FoundInLine<T>(read: string -> seq<T>, lines: seq<string>, x: T)
    requires x in InLines(read, lines)
    ensures exists line <- lines :: x in read(line)
  {
    if x in read(lines[0]) {
      assert lines[0] in lines;
    } else {
      FoundInLine(read, lines[1..], x);
    }
  }

  /** Whatever is found in a text stands in a line without a newline. */
  lemma FoundInText<T>(read: string -> seq<T>, text: string, x: T) returns (line: string)
    requires x in InText(read, text)
    ensures '\n' !in line && x in read(line)
  {
    FoundInLine(read, Split(text, '\n'), x);
    SplitParts(text, '\n');
    line :| line in Split(text, '\n') && x in read(line);
  }

  lemma {:induction false} NothingInTexts<T>(read: string -> seq<T>, texts: seq<string>)
    requires forall i :: 0 <= i < |texts| ==> '\n' !in texts[i] && |read(texts[i])| == 0
    ensures |InTexts(read, texts)| == 0
  {
    if |texts| > 0 {
      OneLine(texts[0]);
      QuietText(read, texts[0]);
      NothingInTexts(read, texts[1..]);
    }
  }

  // ---- the lines themselves ----

  /** All the lines of some texts. */
  function LinesOf(texts: seq<string>): seq<string> {
    if |texts| == 0 then [] else Split(texts[0], '\n') + LinesOf(texts[1..])
  }

  lemma {:induction false} LinesOfConcat(a: seq<string>, b: seq<string>)
    ensures LinesOf(a + b) == LinesOf(a) + LinesOf(b)
  {
    hide Split;
    if |a| == 0 {
      assert a + b == b;
    } else {
      LinesOfConcat(a[1..], b);
      assert (a + b)[1..] == a[1..] + b && (a + b)[0] == a[0];
      Assoc(Split(a[0], '\n'), LinesOf(a[1..]), LinesOf(b));
    }
  }

  lemma {:induction false} JoinedLines(texts: seq<string>)
    requires texts != []
    ensures Split(Join(texts, "\n"), '\n') == LinesOf(texts)
  {
    hide Split;
    var rest := texts[1..];
    if |rest| == 0 {
      assert texts == [texts[0]];
      assert Split(texts[0], '\n') + LinesOf(rest) == Split(texts[0], '\n');
    } else {
      JoinedLines(rest);
      SplitTwo(texts[0], Join(rest, "\n"));
    }
  }

  lemma {:induction false} InLinesOf<T>(read: string -> seq<T>, texts: seq<string>)
    ensures InLines(read, LinesOf(texts)) == InTexts(read, texts)
  {
    hide Split;
    if |texts| > 0 {
      InLinesOf(read, texts[1..]);
      LinesConcat(read, Split(texts[0], '\n'), LinesOf(texts[1..]));
    }
  }

  lemma {:induction false} OneLineEach(texts: seq<string>)
    requires forall i :: 0 <= i < |texts| ==> '\n' !in texts[i]
    ensures LinesOf(texts) == texts
  {
    hide Split;
    if |texts| > 0 {
      OneLine(texts[0]);
      OneLineEach(texts[1..]);
    }
  }

  /** Joined texts end as the last of them does; an empty last text only adds a newline. */
  lemma {:induction false} JoinEnds(texts: seq<string>, last: string)
    requires last != ""
    ensures var all := Join(texts + [last], "\n");
            all != "" && all[|all| - 1] == last[|last| - 1] && Join(texts + [last, ""], "\n") == all + "\n"
  {
    if |texts| == 0 {
      assert [] + [last] == [last] && [] + [last, ""] == [last, ""] && [last, ""][1..] == [""];
    } else {
      JoinEnds(texts[1..], last);
      assert (texts + [last])[1..] == texts[1..] + [last] && (texts + [last, ""])[1..] == texts[1..] + [last, ""];
    }
  }
}
