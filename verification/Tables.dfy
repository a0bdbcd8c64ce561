/**
 Rows of GitHub Flavored Markdown tables (section 4.10 of the GitHub Flavored
 Markdown Spec): cells are separated by pipes, except pipes behind a backslash.
 */
module Tables {
  import opened Wrappers
  import opened Text

  /** The texts between the separating pipes; `escaped` says whether a backslash comes right before. */
  function SplitCells(s: string, escaped: bool): (cells: seq<string>)
    ensures |cells| >= 1
  {
    if |s| == 0 then [""]
    else
      var rest := SplitCells(s[1..], s[0] == '\\');
      if s[0] == '|' && !escaped then [""] + rest else [[s[0]] + rest[0]] + rest[1..]
  }

  /** The cells of a row that starts and ends with a pipe. */
  function Cells(row: string): seq<string> {
    var parts := SplitCells(row, false);
    if |parts| >= 2 then parts[1..|parts| - 1] else []
  }

  /** `"| " + " | ".join(cells) + " |"` */
  function Row(cells: seq<string>): string {
    "| " + Join(cells, " | ") + " |"
  }

  /** Every pipe stands behind a backslash. */
  predicate PipesEscaped(s: string) {
    forall i :: 0 <= i < |s| && s[i] == '|' ==> i > 0 && s[i - 1] == '\\'
  }

  /** The character at `i` does not separate cells. */
  predicate KeptAt(s: string, escaped: bool, i: nat)
    requires i < |s|
  {
    s[i] == '|' ==> if i == 0 then escaped else s[i - 1] == '\\'
  }

  predicate EscapedFrom(s: string, escaped: bool) {
    forall i :: 0 <= i < |s| ==> KeptAt(s, escaped, i)
  }

  lemma EscapedStep(s: string, escaped: bool)
    requires |s| > 0
    ensures EscapedFrom(s, escaped) <==> KeptAt(s, escaped, 0) && EscapedFrom(s[1..], s[0] == '\\')
  {
    var tail, behind := s[1..], s[0] == '\\';
    forall i | 0 < i < |s| ensures KeptAt(s, escaped, i) == KeptAt(tail, behind, i - 1) {
      assert tail[i - 1] == s[i];
    }
    if EscapedFrom(s, escaped) {
      forall i | 0 <= i < |tail| ensures KeptAt(tail, behind, i) {
        assert KeptAt(s, escaped, i + 1);
      }
    }
  }

  lemma {:induction false} EscapedIsWhole(s: string, escaped: bool)
    ensures |SplitCells(s, escaped)| == 1 ==> SplitCells(s, escaped) == [s]
    ensures |SplitCells(s, escaped)| == 1 <==> EscapedFrom(s, escaped)
  {
    if |s| > 0 {
      EscapedIsWhole(s[1..], s[0] == '\\');
      EscapedStep(s, escaped);
      assert [s[0]] + s[1..] == s;
    }
  }

  /** A pipe that no backslash precedes separates what stands on its two sides. */
  lemma {:induction false} SplitAtPipe(a: string, b: string, escaped: bool)
    requires if |a| == 0 then !escaped else a[|a| - 1] != '\\'
    ensures SplitCells(a + ("|" + b), escaped) == SplitCells(a, escaped) + SplitCells(b, false)
  {
    var s := a + ("|" + b);
    if |a| == 0 {
      assert s == "|" + b && s[1..] == b;
    } else {
      SplitAtPipe(a[1..], b, a[0] == '\\');
      assert s[1..] == a[1..] + ("|" + b) && s[0] == a[0];
      ConsFirst(SplitCells(a[1..], a[0] == '\\'), SplitCells(b, false), [a[0]]);
    }
  }

  lemma ConsFirst(xs: seq<string>, ys: seq<string>, c: string)
    requires |xs| > 0
    ensures [c + (xs + ys)[0]] + (xs + ys)[1..] == ([c + xs[0]] + xs[1..]) + ys
    ensures [""] + (xs + ys) == ([""] + xs) + ys
  {
  }

  function Padded(cell: string): string {
    " " + cell + " "
  }

  /** The cells of a row, each with its padding, closed by the last pipe. */
  function Closed(cells: seq<string>): string {
    if |cells| == 0 then "" else Padded(cells[0]) + ("|" + Closed(cells[1..]))
  }

  lemma {:induction false} RowIsClosed(cells: seq<string>)
    requires |cells| > 0
    ensures Row(cells) == "|" + Closed(cells)
  {
    if |cells| == 1 {
      assert Closed(cells) == " " + cells[0] + " " + ("|" + "");
    } else {
      RowIsClosed(cells[1..]);
      var rest := Join(cells[1..], " | ");
      assert Row(cells) == "| " + (cells[0] + " | " + rest) + " |";
      assert "| " + rest + " |" == "|" + Closed(cells[1..]);
      assert " |" + (" " + rest + " |") == " " + ("| " + rest + " |");
      assert "| " + (cells[0] + " | " + rest) + " |" == "|" + (" " + cells[0] + (" " + ("| " + rest + " |")));
    }
  }

  /** The number of pieces a cell text falls into inside a row. */
  function Pieces(cell: string): nat {
    |SplitCells(Padded(cell), false)|
  }

  function TotalPieces(cells: seq<string>): nat {
    if |cells| == 0 then 0 else Pieces(cells[0]) + TotalPieces(cells[1..])
  }

  function PaddedCells(cells: seq<string>): seq<string> {
    if |cells| == 0 then [] else [Padded(cells[0])] + PaddedCells(cells[1..])
  }

  lemma {:induction false} ClosedPieces(cells: seq<string>)
    ensures |SplitCells(Closed(cells), false)| == TotalPieces(cells) + 1
    ensures (forall cell <- cells :: PipesEscaped(cell)) ==> SplitCells(Closed(cells), false) == PaddedCells(cells) + [""]
  {
    if |cells| > 0 {
      ClosedPieces(cells[1..]);
      SplitAtPipe(Padded(cells[0]), Closed(cells[1..]), false);
      PaddedPieces(cells[0]);
      assert cells == [cells[0]] + cells[1..];
    }
  }

  lemma PaddedPieces(cell: string)
    ensures Pieces(cell) >= 1 && (Pieces(cell) == 1 <==> PipesEscaped(cell))
    ensures PipesEscaped(cell) ==> SplitCells(Padded(cell), false) == [Padded(cell)]
  {
    var s := Padded(cell);
    EscapedIsWhole(s, false);
    if Pieces(cell) == 1 {
      forall i | 0 <= i < |cell| && cell[i] == '|' ensures i > 0 && cell[i - 1] == '\\' {
        assert KeptAt(s, false, i + 1) && s[i + 1] == cell[i];
        assert i > 0 ==> s[i] == cell[i - 1];
      }
    }
    if PipesEscaped(cell) {
      forall i | 0 <= i < |s| ensures KeptAt(s, false, i) {
        if 0 < i < |s| - 1 { assert s[i] == cell[i - 1]; }
      }
    }
  }

  lemma {:induction false} TotalPiecesBound(cells: seq<string>)
    ensures TotalPieces(cells) >= |cells|
    ensures TotalPieces(cells) == |cells| <==> forall cell <- cells :: PipesEscaped(cell)
  {
    if |cells| > 0 {
      TotalPiecesBound(cells[1..]);
      PaddedPieces(cells[0]);
      assert cells == [cells[0]] + cells[1..];
    }
  }

  /** A row shows exactly its cells if and only if no cell text holds a bare pipe. */
  lemma RowCells(cells: seq<string>)
    requires |cells| > 0
    ensures |Cells(Row(cells))| == |cells| <==> forall cell <- cells :: PipesEscaped(cell)
    ensures (forall cell <- cells :: PipesEscaped(cell)) ==> Cells(Row(cells)) == PaddedCells(cells)
  {
    RowIsClosed(cells);
    SplitAtPipe("", Closed(cells), false);
    assert "" + ("|" + Closed(cells)) == Row(cells);
    ClosedPieces(cells);
    TotalPiecesBound(cells);
    var inner := SplitCells(Closed(cells), false);
    assert SplitCells("", false) == [""];
    hide SplitCells, Row, Closed, PaddedCells, TotalPieces, PipesEscaped;
    assert SplitCells(Row(cells), false) == [""] + inner;
    OuterDropped(inner);
  }

  lemma OuterDropped(inner: seq<string>)
    requires |inner| >= 1
    ensures ([""] + inner)[1..|inner|] == inner[..|inner| - 1]
    ensures forall cells :: inner == cells + [""] ==> inner[..|inner| - 1] == cells
  {
  }

  // ---- cell texts ----

  function Code(s: string): string {
    "`" + s + "`"
  }

  /** `s.replace("|", "\\|")` */
  function EscapePipes(s: string): string {
    if |s| == 0 then "" else (if s[0] == '|' then "\\|" else [s[0]]) + EscapePipes(s[1..])
  }

  /** `s.replace("\n", " ")` */
  function NewlinesToSpaces(s: string): (r: string)
    ensures |r| == |s| && forall i :: 0 <= i < |s| ==> r[i] == if s[i] == '\n' then ' ' else s[i]
  {
    if |s| == 0 then "" else [if s[0] == '\n' then ' ' else s[0]] + NewlinesToSpaces(s[1..])
  }

  lemma {:induction false} EscapePipesEscapes(s: string)
    ensures PipesEscaped(EscapePipes(s)) && PipesEscaped(NewlinesToSpaces(EscapePipes(s)))
  {
    if |s| > 0 {
      EscapePipesEscapes(s[1..]);
      var head, tail := (if s[0] == '|' then "\\|" else [s[0]]), EscapePipes(s[1..]);
      assert EscapePipes(s) == head + tail;
      forall i | 0 <= i < |head + tail| && (head + tail)[i] == '|' ensures i > 0 && (head + tail)[i - 1] == '\\' {
        if i >= |head| { assert tail[i - |head|] == '|'; }
      }
    }
  }

  /** Escaping is splitting at the pipes and joining with escaped ones. */
  lemma {:induction false} EscapeIsReplace(s: string)
    ensures EscapePipes(s) == Join(Split(s, '|'), "\\|")
  {
    if s != "" {
      var rest := Split(s[1..], '|');
      EscapeIsReplace(s[1..]);
      var parts := Split(s, '|');
      if s[0] == '|' {
        assert parts == [""] + rest && parts[1..] == rest;
      } else {
        assert parts == [[s[0]] + rest[0]] + rest[1..] && parts[1..] == rest[1..];
      }
    }
  }

  /** A text with its pipes escaped and its newlines turned into spaces. */
  ghost predicate IsSpaced(s: string, shown: string) {
    var escaped := Join(Split(s, '|'), "\\|");
    |shown| == |escaped| && forall i :: 0 <= i < |shown| ==> shown[i] == if escaped[i] == '\n' then ' ' else escaped[i]
  }

  lemma SpacedText(s: string)
    ensures IsSpaced(s, NewlinesToSpaces(EscapePipes(s)))
  {
    EscapeIsReplace(s);
  }

  lemma {:induction false} PaddedAt(cells: seq<string>)
    ensures |PaddedCells(cells)| == |cells| && forall i :: 0 <= i < |cells| ==> PaddedCells(cells)[i] == Padded(cells[i])
  {
    hide Padded;
    if |cells| > 0 {
      PaddedAt(cells[1..]);
      forall i | 0 <= i < |cells| ensures PaddedCells(cells)[i] == Padded(cells[i]) {
        assert i > 0 ==> cells[i] == cells[1..][i - 1];
      }
    }
  }

  lemma CodeKeepsPipes(s: string)
    ensures PipesEscaped(Code(s)) <==> PipesEscaped(s)
  {
    var c := Code(s);
    assert forall i :: 0 <= i < |s| ==> c[i + 1] == s[i];
    if PipesEscaped(c) {
      forall i | 0 <= i < |s| && s[i] == '|' ensures i > 0 && s[i - 1] == '\\' {
        assert c[i + 1] == '|' && c[i] == '\\';
      }
    }
    if PipesEscaped(s) {
      forall i | 0 <= i < |c| && c[i] == '|' ensures i > 0 && c[i - 1] == '\\' {
        assert s[i - 1] == '|';
      }
    }
  }

  /** A character that is no part of the row's frame shows up only from a cell. */
  lemma {:induction false} JoinShows(cells: seq<string>, c: char)
    requires c != ' ' && c != '|'
    ensures c in Join(cells, " | ") <==> exists cell <- cells :: c in cell
  {
    if |cells| == 1 {
      assert cells == [cells[0]];
    } else if |cells| > 1 {
      JoinShows(cells[1..], c);
      assert cells == [cells[0]] + cells[1..];
    }
  }

  lemma RowShows(cells: seq<string>, c: char)
    requires c != ' ' && c != '|'
    ensures c in Row(cells) <==> exists cell <- cells :: c in cell
  {
    JoinShows(cells, c);
  }

  // ---- reading code spans ----

  /** The cells of a line that starts with a pipe, whether or not another pipe closes it. */
  function LineCells(line: string): seq<string> {
    if line != "" && line[0] == '|' then SplitCells(line[1..], false) else []
  }

  /** The text of a cell that is one code span. */
  function CodeSpan(cell: string): Option<string> {
    var c := Strip(cell);
    if |c| > 2 && c[0] == '`' && c[|c| - 1] == '`' && '`' !in c[1..|c| - 1] then Some(c[1..|c| - 1]) else None
  }

  /** A text that a code span in a row can show as it is. */
  predicate SpanText(s: string) {
    s != "" && '`' !in s && '\n' !in s && PipesEscaped(s)
  }

  lemma {:induction false} LStripKeeps(s: string)
    requires '\n' !in s
    ensures '\n' !in LStrip(s) && (PipesEscaped(s) ==> PipesEscaped(LStrip(s)))
  {
    if s != "" && IsSpace(s[0]) {
      LStripKeeps(s[1..]);
      if PipesEscaped(s) {
        forall i | 0 <= i < |s[1..]| && s[1..][i] == '|' ensures i > 0 && s[1..][i - 1] == '\\' {
          assert s[i + 1] == '|';
        }
      }
    }
  }

  lemma {:induction false} RStripKeeps(s: string)
    requires '\n' !in s
    ensures '\n' !in RStrip(s) && (PipesEscaped(s) ==> PipesEscaped(RStrip(s)))
  {
    if s != "" && IsSpace(s[|s| - 1]) { RStripKeeps(s[..|s| - 1]); }
  }

  lemma SpanIsRead(s: string)
    requires SpanText(s)
    ensures CodeSpan(Padded(Code(s))) == Some(s)
  {
    var c := Code(s);
    assert Padded(c)[1..] == c + " ";
    assert (c + " ")[..|c|] == c;
    assert LStrip(Padded(c)) == LStrip(c + " ") == c + " ";
    assert RStrip(c + " ") == RStrip(c) == c;
    assert c[1..|c| - 1] == s;
  }

  lemma NotASpan(cell: string)
    requires cell != "" && !IsSpace(cell[0]) && cell[0] != '`'
    ensures CodeSpan(cell).None? && CodeSpan(Padded(cell)).None?
  {
    assert LStrip(cell) == cell;
    assert Padded(cell)[1..] == cell + " ";
    assert LStrip(Padded(cell)) == LStrip(cell + " ") == cell + " ";
    RStripPrefix(cell);
    RStripPrefix(cell + " ");
  }

  /** The first cell of a row, whatever follows it. */
  lemma FirstCellIsRead(cell: string, rest: string)
    requires PipesEscaped(cell)
    ensures var line := "|" + Padded(cell) + "|" + rest; |LineCells(line)| > 0 && LineCells(line)[0] == Padded(cell)
  {
    var line := "|" + Padded(cell) + "|" + rest;
    assert line[1..] == Padded(cell) + ("|" + rest);
    SplitAtPipe(Padded(cell), rest, false);
    PaddedPieces(cell);
  }

  /** The cells of a row in which no cell text holds a bare pipe. */
  lemma RowCellsAreRead(cells: seq<string>)
    requires |cells| > 0 && forall cell <- cells :: PipesEscaped(cell)
    ensures LineCells(Row(cells)) == PaddedCells(cells) + [""]
  {
    RowIsClosed(cells);
    ClosedPieces(cells);
    assert ("|" + Closed(cells))[1..] == Closed(cells);
  }

  /** A row whose first cell starts with anything but a backtick or white space has no code span in front. */
  lemma FirstIsNoSpan(cells: seq<string>)
    requires |cells| > 0 && cells[0] != "" && !IsSpace(cells[0][0]) && cells[0][0] != '`' && PipesEscaped(cells[0])
    ensures |LineCells(Row(cells))| > 0 && CodeSpan(LineCells(Row(cells))[0]).None?
  {
    NotASpan(cells[0]);
    hide CodeSpan, Row;
    RowIsClosed(cells);
    var rest := Closed(cells[1..]);
    assert "|" + Closed(cells) == "|" + Padded(cells[0]) + "|" + rest;
    FirstCellIsRead(cells[0], rest);
  }

  /** No piece of a line holds a pipe that separates cells. */
  lemma {:induction false} PiecesAreEscaped(s: string, escaped: bool)
    ensures EscapedFrom(SplitCells(s, escaped)[0], escaped)
    ensures forall j :: 0 < j < |SplitCells(s, escaped)| ==> PipesEscaped(SplitCells(s, escaped)[j])
  {
    if |s| > 0 {
      var rest := SplitCells(s[1..], s[0] == '\\');
      PiecesAreEscaped(s[1..], s[0] == '\\');
      if s[0] == '|' && !escaped {
        EscapedPipes(rest[0]);
      } else {
        EscapedCons(s[0], rest[0], escaped);
      }
    }
  }

  lemma EscapedPipes(s: string)
    ensures EscapedFrom(s, false) <==> PipesEscaped(s)
  {
    if EscapedFrom(s, false) {
      forall i | 0 <= i < |s| && s[i] == '|' ensures i > 0 && s[i - 1] == '\\' {
        assert KeptAt(s, false, i);
      }
    }
    if PipesEscaped(s) {
      forall i | 0 <= i < |s| ensures KeptAt(s, false, i) {
      }
    }
  }

  lemma EscapedCons(c: char, s: string, escaped: bool)
    requires EscapedFrom(s, c == '\\') && (c == '|' ==> escaped)
    ensures EscapedFrom([c] + s, escaped)
  {
    var t := [c] + s;
    forall i | 0 <= i < |t| ensures KeptAt(t, escaped, i) {
      if i > 0 { assert KeptAt(s, c == '\\', i - 1); }
    }
  }

  lemma {:induction false} PiecesAreLines(s: string, escaped: bool)
    requires '\n' !in s
    ensures forall piece <- SplitCells(s, escaped) :: '\n' !in piece
  {
    if |s| > 0 { PiecesAreLines(s[1..], s[0] == '\\'); }
  }

  /** Whatever is read as a code span is a text that a code span can show. */
  lemma ReadSpanIsText(line: string, j: nat)
    requires '\n' !in line && j < |LineCells(line)| && CodeSpan(LineCells(line)[j]).Some?
    ensures SpanText(CodeSpan(LineCells(line)[j]).value)
  {
    var cell := LineCells(line)[j];
    PiecesAreEscaped(line[1..], false);
    EscapedPipes(SplitCells(line[1..], false)[0]);
    PiecesAreLines(line[1..], false);
    LStripKeeps(cell);
    RStripKeeps(LStrip(cell));
    InsideIsEscaped(Strip(cell));
  }

  lemma InsideIsEscaped(c: string)
    requires |c| > 2 && c[0] != '\\' && '\n' !in c && PipesEscaped(c)
    ensures PipesEscaped(c[1..|c| - 1]) && '\n' !in c[1..|c| - 1]
  {
    var inner := c[1..|c| - 1];
    forall i | 0 <= i < |inner| && inner[i] == '|' ensures i > 0 && inner[i - 1] == '\\' {
      assert c[i + 1] == '|' && c[i] == '\\';
    }
  }
}
