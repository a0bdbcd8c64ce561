/** What a row of the endpoint tables tells of an endpoint (common/platform/generate_api_reference.py). */
module ApiRows {
  import opened Wrappers
  import opened Text
  import opened Digits
  import opened Sorting
  import opened Ordering
  import opened Tables
  import opened ApiReference

  /** A text with its pipes escaped, its newlines turned into spaces, and no white space around it. */
  ghost predicate IsEscaped(s: string, shown: string) {
    exists spaced :: IsSpaced(s, spaced) && shown == Strip(spaced)
  }

  lemma EscapedText(s: string)
    ensures IsEscaped(s, EscapeTable(s))
  {
    SpacedText(s);
    hide IsSpaced, NewlinesToSpaces, EscapePipes, Strip;
  }

  const HTTP_METHODS := ["get", "post", "put", "patch", "delete", "options", "head"]

  /** The same word in capitals and in small letters. */
  predicate IsUpper(name: string, lower: string) {
    |name| == |lower| && forall j :: 0 <= j < |name| ==> 'A' <= name[j] <= 'Z' && lower[j] as int == name[j] as int + 32
  }

  /** The methods in their order, each printed in capitals. */
  lemma NamesAreCapitals(i: nat)
    requires i < |METHODS|
    ensures |METHODS| == |HTTP_METHODS| && IsUpper(Name(METHODS[i]), HTTP_METHODS[i])
  {
  }

  lemma RowCellsEscaped(e: Endpoint)
    requires e.operation.Operation? && PipesEscaped(e.path)
    ensures forall cell <- EndpointCells(e) :: PipesEscaped(cell)
  {
    CellsByIndex(e);
    FixedCells(e);
    CodeKeepsPipes(e.path);
    EscapeTableIsSafe(e.operation.parameters);
    EscapeTableIsSafe(e.operation.request);
    EscapeTableIsSafe(e.operation.responses);
    EscapeTableIsSafe(e.operation.summary);
    hide PipesEscaped, EscapeTable, Code, Name;
  }

  /** The cells of an endpoint's row: method, path, whether it needs authorisation, and four texts in order. */
  lemma EndpointRowTells(e: Endpoint)
    requires e.operation.Operation? && PipesEscaped(e.path)
    ensures var cells := Cells(EndpointRow(e));
            && |cells| == 7
            && cells[0] == " `" + Name(e.verb) + "` "
            && cells[1] == " `" + e.path + "` "
            && cells[2] == (if e.operation.secured then " yes " else " no ")
            && (exists shown :: IsEscaped(e.operation.parameters, shown) && cells[3] == " " + shown + " ")
            && (exists shown :: IsEscaped(e.operation.request, shown) && cells[4] == " " + shown + " ")
            && (exists shown :: IsEscaped(e.operation.responses, shown) && cells[5] == " " + shown + " ")
            && (exists shown :: IsEscaped(e.operation.summary, shown) && cells[6] == " " + shown + " ")
  {
    var cells := EndpointCells(e);
    RowCellsEscaped(e);
    RowCells(cells);
    PaddedAt(cells);
    EscapedText(e.operation.parameters);
    EscapedText(e.operation.request);
    EscapedText(e.operation.responses);
    EscapedText(e.operation.summary);
    hide PipesEscaped, EscapeTable, Cells, Row, PaddedCells, IsEscaped;
  }

  // ---- the layout of the page ----

  /** The rows of some endpoints, in their order. */
  ghost predicate AreRows(rows: seq<string>, es: seq<Endpoint>) {
    |rows| == |es| && forall i :: 0 <= i < |es| ==> rows[i] == EndpointRow(es[i])
  }

  /** A tag's heading, the head of its table, the rows of its endpoints, and a blank line. */
  ghost predicate IsTagSection(lines: seq<string>, tag: string, es: seq<Endpoint>) {
    && |lines| == |es| + 5
    && lines[0] == "### " + tag && lines[1] == ""
    && Cells(lines[2]) == [Padded("Method"), Padded("Path"), Padded("Auth"), Padded("Params"), Padded("Request"),
                           Padded("Success responses"), Padded("Summary")]
    && Cells(lines[3]) == ["---", "---", "---", "---", "---", "---", "---"]
    && AreRows(lines[4..|lines| - 1], es) && lines[|lines| - 1] == ""
  }

  /** A line of the group table: the tag in a code span and the number of its endpoints. */
  ghost predicate IsGroupLine(line: string, tag: string, es: seq<Endpoint>) {
    line == "| `" + tag + "` | " + Numeral(|es|) + " |"
  }

  ghost predicate AreGroupLines(lines: seq<string>, tags: seq<string>, es: seq<Endpoint>) {
    |lines| == |tags| && forall i :: 0 <= i < |tags| ==> IsGroupLine(lines[i], tags[i], InGroup(es, TagOf, tags[i]))
  }

  ghost predicate AreTagSections(sections: seq<seq<string>>, tags: seq<string>, es: seq<Endpoint>) {
    |sections| == |tags| && forall i :: 0 <= i < |tags| ==> IsTagSection(sections[i], tags[i], InGroup(es, TagOf, tags[i]))
  }

  function Concat(parts: seq<seq<string>>): seq<string> {
    if |parts| == 0 then [] else parts[0] + Concat(parts[1..])
  }

  lemma {:induction false} RowsAre(es: seq<Endpoint>)
    ensures AreRows(RowsOf(es), es)
  {
    hide EndpointRow;
    if |es| > 0 {
      RowsAre(es[1..]);
      forall i | 0 <= i < |es| ensures RowsOf(es)[i] == EndpointRow(es[i]) {
        assert i > 0 ==> es[i] == es[1..][i - 1];
      }
    }
  }

  lemma {:induction false} GroupLinesAre(tags: seq<string>, es: seq<Endpoint>)
    ensures AreGroupLines(GroupLines(tags, es), tags, es)
  {
    hide InGroup, Numeral;
    if |tags| > 0 {
      GroupLinesAre(tags[1..], es);
      forall i | 0 <= i < |tags| ensures IsGroupLine(GroupLines(tags, es)[i], tags[i], InGroup(es, TagOf, tags[i])) {
        assert i > 0 ==> tags[i] == tags[1..][i - 1];
      }
    }
  }

  lemma PlainCell(s: string)
    requires '|' !in s
    ensures PipesEscaped(s)
  {
  }

  lemma ColumnsEscaped()
    ensures forall cell <- COLUMNS :: PipesEscaped(cell)
  {
    hide PipesEscaped;
    PlainCell("Method");
    PlainCell("Path");
    PlainCell("Auth");
    PlainCell("Params");
    PlainCell("Request");
    PlainCell("Success responses");
    PlainCell("Summary");
  }

  lemma ColumnsAre()
    ensures Cells(Row(COLUMNS)) == [Padded("Method"), Padded("Path"), Padded("Auth"), Padded("Params"), Padded("Request"),
                                    Padded("Success responses"), Padded("Summary")]
  {
    hide Cells, Row, PaddedCells, PipesEscaped, Padded;
    ColumnsEscaped();
    RowCells(COLUMNS);
    PaddedAt(COLUMNS);
  }

  function Dashes(n: nat): string {
    if n == 0 then "" else "---" + ("|" + Dashes(n - 1))
  }

  lemma {:induction false} DashCells(n: nat)
    ensures var cells := SplitCells(Dashes(n), false);
            |cells| == n + 1 && cells[n] == "" && forall i :: 0 <= i < n ==> cells[i] == "---"
  {
    if n > 0 {
      DashCells(n - 1);
      SplitAtPipe("---", Dashes(n - 1), false);
      EscapedIsWhole("---", false);
      assert SplitCells("---", false) == ["---"];
    }
  }

  lemma RuleCells()
    ensures Cells(RULE) == ["---", "---", "---", "---", "---", "---", "---"]
  {
    hide SplitCells, Dashes;
    DashCells(7);
    SplitAtPipe("", Dashes(7), false);
    RuleIsDashes();
    var cells := SplitCells(Dashes(7), false);
    assert "" + ("|" + Dashes(7)) == "|" + Dashes(7);
    assert SplitCells(RULE, false) == [""] + cells;
    assert ([""] + cells)[1..8] == cells[..7];
  }

  lemma ThreeDashes()
    ensures Dashes(3) == "---|---|---|"
  {
    assert Dashes(1) == "---|";
    assert Dashes(2) == "---|---|";
  }

  lemma OneMore(n: nat, text: string)
    requires Dashes(n) == text
    ensures Dashes(n + 1) == "---|" + text
  {
    assert "---" + ("|" + text) == "---|" + text;
  }

  lemma RuleIsDashes()
    ensures RULE == "|" + Dashes(7) && SplitCells("", false) == [""]
  {
    ThreeDashes();
    OneMore(3, "---|---|---|");
    OneMore(4, "---|" + "---|---|---|");
    OneMore(5, "---|" + ("---|" + "---|---|---|"));
    RestIs();
    assert Dashes(7) == "---" + ("|" + Dashes(6));
  }

  lemma RestIs()
    ensures RULE_REST == "---|" + ("---|" + ("---|" + "---|---|---|"))
  {
  }

  lemma TagSectionIs(tag: string, es: seq<Endpoint>)
    ensures IsTagSection(TagSection(tag, es), tag, es)
  {
    RowsAre(es);
    assert |RowsOf(es)| == |es|;
    hide Cells, Row, RowsOf, AreRows, Padded;
    ColumnsAre();
    RuleCells();
    SectionLines("### " + tag, Row(COLUMNS), RULE, RowsOf(es));
  }

  lemma SectionLines(title: string, columns: string, rule: string, rows: seq<string>)
    ensures var lines := [title, ""] + [columns, rule] + (rows + [""]);
            && |lines| == |rows| + 5
            && lines[0] == title && lines[1] == "" && lines[2] == columns && lines[3] == rule
            && lines[4..|lines| - 1] == rows && lines[|lines| - 1] == ""
  {
  }

  lemma {:induction false} TagSectionsAre(tags: seq<string>, es: seq<Endpoint>) returns (sections: seq<seq<string>>)
    ensures AreTagSections(sections, tags, es) && TagSections(tags, es) == Concat(sections)
  {
    hide TagSection, IsTagSection, InGroup;
    sections := [];
    if |tags| > 0 {
      var members := InGroup(es, TagOf, tags[0]);
      TagSectionIs(tags[0], members);
      var rest := TagSectionsAre(tags[1..], es);
      sections := [TagSection(tags[0], members)] + rest;
      assert sections[1..] == rest;
    }
  }

  /**
   The page, line by line: between the fixed lines the number of endpoints, the
   group table, and under one heading the tags in the order of their names.
   */
  lemma PageIsLaidOut(before: seq<string>, after: seq<string>, paths: seq<PathEntry>)
    ensures exists groups, sections ::
              var es := Endpoints(paths);
              var tags := Sort(Groups(es, TagOf), StrLe);
              && AreGroupLines(groups, tags, es) && AreTagSections(sections, tags, es)
              && Page(before, after, paths)
                 == Join(before + ["- Endpoint count: `" + Numeral(|es|) + "`"] + after + groups
                         + (["", "## Endpoints", ""] + Concat(sections)), "\n")
  {
    var es := Endpoints(paths);
    var tags := Sort(Groups(es, TagOf), StrLe);
    GroupLinesAre(tags, es);
    var sections := TagSectionsAre(tags, es);
    PageIsJoined(before, after, paths);
    hide Page, Endpoints, Groups, Sort, AreGroupLines, AreTagSections, TagSections, GroupLines, Join, Concat;
  }

  // ---- the order of the endpoints ----

  /** The place of a method in the fixed order. */
  function Place(m: Method): nat {
    match m
    case Get => 0 case Post => 1 case Put => 2 case Patch => 3 case Delete => 4 case Options => 5 case Head => 6
  }

  /** By path, and within a path by method. */
  predicate Before(x: Endpoint, y: Endpoint) {
    StrLe(x.path, y.path) && (x.path == y.path ==> Place(x.verb) < Place(y.verb))
  }

  lemma {:induction false} MethodsInOrder(entry: PathEntry, methods: seq<Method>)
    requires forall i, j :: 0 <= i < j < |methods| ==> Place(methods[i]) < Place(methods[j])
    ensures forall e <- EndpointsOf(entry, methods) :: e.path == entry.path && e.verb in methods
    ensures forall i, j :: 0 <= i < j < |EndpointsOf(entry, methods)| ==>
                             Place(EndpointsOf(entry, methods)[i].verb) < Place(EndpointsOf(entry, methods)[j].verb)
  {
    if |methods| > 0 {
      MethodsInOrder(entry, methods[1..]);
      forall m | m in methods[1..] ensures Place(methods[0]) < Place(m) {
        var i :| 0 <= i < |methods[1..]| && methods[1..][i] == m;
        assert methods[i + 1] == m;
      }
    }
  }

  lemma {:induction false} EntriesInOrder(entries: seq<PathEntry>)
    requires forall i, j :: 0 <= i < j < |entries| ==> StrLe(entries[i].path, entries[j].path) && entries[i].path != entries[j].path
    ensures forall e <- AllEndpoints(entries) :: exists entry <- entries :: e.path == entry.path
    ensures forall i, j :: 0 <= i < j < |AllEndpoints(entries)| ==> Before(AllEndpoints(entries)[i], AllEndpoints(entries)[j])
  {
    if |entries| > 0 {
      var first, rest := EndpointsOf(entries[0], METHODS), AllEndpoints(entries[1..]);
      MethodsInOrder(entries[0], METHODS);
      EntriesInOrder(entries[1..]);
      hide EndpointsOf, StrLe, Place;
      assert AllEndpoints(entries) == first + rest;
      forall e | e in rest ensures StrLe(entries[0].path, e.path) && entries[0].path != e.path
                           ensures exists entry <- entries :: e.path == entry.path {
        var entry :| entry in entries[1..] && e.path == entry.path;
        var i :| 0 <= i < |entries[1..]| && entries[1..][i] == entry;
        assert entries[i + 1] == entry;
      }
      SamePath(entries[0].path);
      JoinedInOrder(first, rest);
    }
  }

  lemma SamePath(path: string)
    ensures StrLe(path, path)
  {
    StrLeTotal(path, path);
  }

  lemma JoinedInOrder(a: seq<Endpoint>, b: seq<Endpoint>)
    requires forall i, j :: 0 <= i < j < |a| ==> Before(a[i], a[j])
    requires forall i, j :: 0 <= i < j < |b| ==> Before(b[i], b[j])
    requires forall x <- a, y <- b :: Before(x, y)
    ensures forall i, j :: 0 <= i < j < |a + b| ==> Before((a + b)[i], (a + b)[j])
  {
    hide Before;
    forall i, j | 0 <= i < j < |a + b| ensures Before((a + b)[i], (a + b)[j]) {
      if j < |a| {
      } else if i < |a| {
        assert a[i] in a && b[j - |a|] in b;
      } else {
        assert Before(b[i - |a|], b[j - |a|]);
      }
    }
  }

  /** The endpoints are listed by path, and those of one path in the order of the methods. */
  lemma EndpointsInOrder(paths: seq<PathEntry>)
    requires DistinctPaths(paths)
    ensures var es := Endpoints(paths); forall i, j :: 0 <= i < j < |es| ==> Before(es[i], es[j])
  {
    var entries := Sort(paths, PathLe);
    PathsAreOrdered();
    SortIsStable(paths, PathLe);
    SortKeepsPathsDistinct(paths, entries);
    EntriesInOrder(entries);
  }

  lemma PathsAreOrdered()
    ensures TotalPreorder(PathLe)
  {
    forall x: PathEntry, y: PathEntry ensures PathLe(x, y) || PathLe(y, x) { StrLeTotal(x.path, y.path); }
    forall x: PathEntry, y: PathEntry, z: PathEntry | PathLe(x, y) && PathLe(y, z) ensures PathLe(x, z) {
      StrLeTransitive(x.path, y.path, z.path);
    }
  }

  /** An endpoint stands under the first of its tags, or under "untagged". */
  lemma TagIsFirst(e: Endpoint)
    requires e.operation.Operation?
    ensures e.operation.tags == [] ==> TagOf(e) == "untagged"
    ensures e.operation.tags != [] ==> TagOf(e) == e.operation.tags[0]
  {
  }
}
