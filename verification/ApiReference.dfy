/**
 The endpoint inventory (common/platform/generate_api_reference.py): operations
 of an OpenAPI document, grouped by tag and printed as tables.
 */
module ApiReference {
  import opened Text
  import opened Digits
  import opened Sorting
  import opened Ordering
  import opened Tables
  import opened Reading

  datatype Method = Get | Post | Put | Patch | Delete | Options | Head

  const METHODS: seq<Method> := [Get, Post, Put, Patch, Delete, Options, Head]

  function Name(m: Method): string {
    match m
    case Get => "GET" case Post => "POST" case Put => "PUT" case Patch => "PATCH"
    case Delete => "DELETE" case Options => "OPTIONS" case Head => "HEAD"
  }

  /** An operation object; the cell texts are what the schema helpers print. */
  datatype Operation =
    | EmptyObject
    | Operation(tags: seq<string>, secured: bool, parameters: string, request: string, responses: string, summary: string)

  /** One item of "paths". */
  datatype PathEntry = PathEntry(path: string, operations: map<Method, Operation>)

  datatype Endpoint = Endpoint(verb: Method, path: string, operation: Operation)

  predicate PathLe(a: PathEntry, b: PathEntry) { StrLe(a.path, b.path) }

  function TagOf(e: Endpoint): string {
    if e.operation.Operation? && |e.operation.tags| > 0 then e.operation.tags[0] else "untagged"
  }

  predicate Listed(entry: PathEntry, m: Method) {
    m in entry.operations && entry.operations[m] != EmptyObject
  }

  /** The endpoints of one path, in the order of the methods. */
  function EndpointsOf(entry: PathEntry, methods: seq<Method>): seq<Endpoint> {
    if |methods| == 0 then []
    else (if Listed(entry, methods[0]) then [Endpoint(methods[0], entry.path, entry.operations[methods[0]])] else [])
         + EndpointsOf(entry, methods[1..])
  }

  function AllEndpoints(entries: seq<PathEntry>): seq<Endpoint> {
    if |entries| == 0 then [] else EndpointsOf(entries[0], METHODS) + AllEndpoints(entries[1..])
  }

  /** The endpoints of a document, in listing order. */
  function Endpoints(paths: seq<PathEntry>): seq<Endpoint> {
    AllEndpoints(Sort(paths, PathLe))
  }

  // ---- printing ----

  /** `_escape_table` */
  function EscapeTable(value: string): string {
    Strip(NewlinesToSpaces(EscapePipes(value)))
  }

  function EndpointCells(e: Endpoint): seq<string>
    requires e.operation.Operation?
  {
    var op := e.operation;
    [Code(Name(e.verb)), Code(e.path), if op.secured then "yes" else "no", EscapeTable(op.parameters),
     EscapeTable(op.request), EscapeTable(op.responses), EscapeTable(op.summary)]
  }

  function EndpointRow(e: Endpoint): string {
    if e.operation.Operation? then Row(EndpointCells(e)) else ""
  }

  function RowsOf(es: seq<Endpoint>): seq<string> {
    if |es| == 0 then [] else [EndpointRow(es[0])] + RowsOf(es[1..])
  }

  const RULE_REST := "---|---|---|---|---|---|"
  const RULE := "|" + ("---" + ("|" + RULE_REST))

  const COLUMNS := ["Method", "Path", "Auth", "Params", "Request", "Success responses", "Summary"]

  function TableHead(): seq<string> {
    [Row(COLUMNS), RULE]
  }

  function TagSection(tag: string, es: seq<Endpoint>): seq<string> {
    ["### " + tag, ""] + TableHead() + (RowsOf(es) + [""])
  }

  function TagSections(tags: seq<string>, es: seq<Endpoint>): seq<string> {
    if |tags| == 0 then [] else TagSection(tags[0], InGroup(es, TagOf, tags[0])) + TagSections(tags[1..], es)
  }

  function GroupLine(tag: string, count: nat): string {
    "| `" + tag + "` | " + Numeral(count) + " |"
  }

  function GroupLines(tags: seq<string>, es: seq<Endpoint>): seq<string> {
    if |tags| == 0 then [] else [GroupLine(tags[0], |InGroup(es, TagOf, tags[0])|)] + GroupLines(tags[1..], es)
  }

  function CountLine(count: nat): string {
    "- Endpoint count: `" + Numeral(count) + "`"
  }

  const HEADING := "## Endpoints"

  function FrontLines(before: seq<string>, after: seq<string>, es: seq<Endpoint>): seq<string> {
    before + [CountLine(|es|)] + after + GroupLines(Sort(Groups(es, TagOf), StrLe), es)
  }

  /** The page, between fixed introductory lines that hold the endpoint count and the group table. */
  function PageLines(before: seq<string>, after: seq<string>, es: seq<Endpoint>): seq<string> {
    var tags := Sort(Groups(es, TagOf), StrLe);
    FrontLines(before, after, es) + (["", HEADING, ""] + TagSections(tags, es))
  }

  function Page(before: seq<string>, after: seq<string>, paths: seq<PathEntry>): string {
    RStrip(Join(PageLines(before, after, Endpoints(paths)), "\n")) + "\n"
  }

  lemma ListStep(entry: PathEntry, methods: seq<Method>, j: nat)
    requires j < |methods|
    ensures EndpointsOf(entry, methods[j..])
         == (if Listed(entry, methods[j]) then [Endpoint(methods[j], entry.path, entry.operations[methods[j]])] else [])
            + EndpointsOf(entry, methods[j + 1..])
  {
    assert methods[j..][1..] == methods[j + 1..] && methods[j..][0] == methods[j];
  }

  lemma NothingListed(entry: PathEntry)
    ensures EndpointsOf(entry, []) == []
  {
  }

  method CollectOperations(entry: PathEntry, methods: seq<Method>) returns (es: seq<Endpoint>)
    ensures es == EndpointsOf(entry, methods)
  {
    hide EndpointsOf;
    es := [];
    assert methods[0..] == methods;
    for j := 0 to |methods|
      invariant es + EndpointsOf(entry, methods[j..]) == EndpointsOf(entry, methods)
    {
      ListStep(entry, methods, j);
      if !Listed(entry, methods[j]) {
        continue;
      }
      var e := Endpoint(methods[j], entry.path, entry.operations[methods[j]]);
      Assoc(es, [e], EndpointsOf(entry, methods[j + 1..]));
      es := es + [e];
    }
    assert methods[|methods|..] == [];
    NothingListed(entry);
  }

  method CollectEndpoints(paths: seq<PathEntry>) returns (es: seq<Endpoint>)
    ensures es == Endpoints(paths)
  {
    var entries := Sort(paths, PathLe);
    es := [];
    for i := 0 to |entries|
      invariant es + AllEndpoints(entries[i..]) == AllEndpoints(entries)
    {
      assert entries[i..][1..] == entries[i + 1..];
      var found := CollectOperations(entries[i], METHODS);
      Assoc(es, found, AllEndpoints(entries[i + 1..]));
      es := es + found;
    }
    assert entries[|entries|..] == [];
  }

  ghost predicate GroupedBy(grouped: map<string, seq<Endpoint>>, tags: seq<string>, es: seq<Endpoint>) {
    forall tag <- tags :: tag in grouped && grouped[tag] == InGroup(es, TagOf, tag)
  }

  method CountEndpoints(grouped: map<string, seq<Endpoint>>, tags: seq<string>, ghost es: seq<Endpoint>) returns (total: nat)
    requires GroupedBy(grouped, tags, es)
    ensures total == GroupCount(tags, es)
  {
    total := 0;
    for i := 0 to |tags|
      invariant total + GroupCount(tags[i..], es) == GroupCount(tags, es)
    {
      assert tags[i..][1..] == tags[i + 1..] && tags[i] in tags;
      total := total + |grouped[tags[i]]|;
    }
    assert tags[|tags|..] == [];
  }

  method PrintGroups(grouped: map<string, seq<Endpoint>>, tags: seq<string>, ghost es: seq<Endpoint>)
    returns (lines: seq<string>)
    requires GroupedBy(grouped, tags, es)
    ensures lines == GroupLines(tags, es)
  {
    lines := [];
    for i := 0 to |tags|
      invariant lines + GroupLines(tags[i..], es) == GroupLines(tags, es)
    {
      assert tags[i..][1..] == tags[i + 1..] && tags[i] in tags;
      var line := GroupLine(tags[i], |grouped[tags[i]]|);
      Assoc(lines, [line], GroupLines(tags[i + 1..], es));
      lines := lines + [line];
    }
    assert tags[|tags|..] == [];
  }

  method PrintSections(grouped: map<string, seq<Endpoint>>, tags: seq<string>, ghost es: seq<Endpoint>)
    returns (lines: seq<string>)
    requires GroupedBy(grouped, tags, es)
    ensures lines == TagSections(tags, es)
  {
    hide TagSection;
    lines := [];
    for i := 0 to |tags|
      invariant lines + TagSections(tags[i..], es) == TagSections(tags, es)
    {
      assert tags[i..][1..] == tags[i + 1..] && tags[i] in tags;
      var section := TagSection(tags[i], grouped[tags[i]]);
      Assoc(lines, section, TagSections(tags[i + 1..], es));
      lines := lines + section;
    }
    assert tags[|tags|..] == [];
  }

  /** `render_openapi_reference` */
  method RenderOpenapiReference(before: seq<string>, after: seq<string>, paths: seq<PathEntry>) returns (text: string)
    ensures text == Page(before, after, paths)
  {
    var es := CollectEndpoints(paths);
    var order, grouped := GroupBy(es, TagOf);
    var tags := Sort(order, StrLe);
    SortedTags(es);
    GroupsCover(es);
    CountsAddUp(es, order);
    var total := CountEndpoints(grouped, order, es);
    var groupLines := PrintGroups(grouped, tags, es);
    var sections := PrintSections(grouped, tags, es);
    var lines := before + [CountLine(total)] + after + groupLines + (["", HEADING, ""] + sections);
    return RStrip(Join(lines, "\n")) + "\n";
  }

  lemma GroupsCover(es: seq<Endpoint>)
    ensures Distinct(Groups(es, TagOf)) && forall e <- es :: TagOf(e) in Groups(es, TagOf)
  {
    var group: Endpoint -> string := TagOf;
    GroupsFacts(es, group);
    forall e | e in es ensures TagOf(e) in Groups(es, TagOf) {
      assert group(e) == TagOf(e);
    }
  }

  lemma SortedTags(es: seq<Endpoint>)
    ensures forall tag :: tag in Sort(Groups(es, TagOf), StrLe) <==> tag in Groups(es, TagOf)
    ensures Distinct(Sort(Groups(es, TagOf), StrLe))
  {
    var order := Groups(es, TagOf);
    GroupsFacts(es, TagOf);
    StrLeIsOrder();
    SortIsStable(order, StrLe);
    SortedDistinct(order, Sort(order, StrLe));
    forall tag ensures tag in Sort(order, StrLe) <==> tag in order {
      assert tag in multiset(order) <==> tag in multiset(Sort(order, StrLe));
    }
  }

  // ---- nothing is lost and nothing is counted twice ----

  function GroupCount(tags: seq<string>, es: seq<Endpoint>): nat {
    if |tags| == 0 then 0 else |InGroup(es, TagOf, tags[0])| + GroupCount(tags[1..], es)
  }

  lemma {:induction false} CountSnoc(tags: seq<string>, es: seq<Endpoint>, e: Endpoint)
    requires Distinct(tags)
    ensures GroupCount(tags, es + [e]) == GroupCount(tags, es) + if TagOf(e) in tags then 1 else 0
  {
    if |tags| > 0 {
      CountSnoc(tags[1..], es, e);
      assert (es + [e])[..|es|] == es;
      assert tags == [tags[0]] + tags[1..];
    }
  }

  /** The group counts add up to the number of endpoints. */
  lemma {:induction false} CountsAddUp(es: seq<Endpoint>, tags: seq<string>)
    requires Distinct(tags) && forall e <- es :: TagOf(e) in tags
    ensures GroupCount(tags, es) == |es|
  {
    if |es| == 0 {
      NoCount(tags);
    } else {
      var n := |es| - 1;
      CountsAddUp(es[..n], tags);
      CountSnoc(tags, es[..n], es[n]);
      assert es == es[..n] + [es[n]];
    }
  }

  lemma {:induction false} NoCount(tags: seq<string>)
    ensures GroupCount(tags, []) == 0
  {
    if |tags| > 0 { NoCount(tags[1..]); }
  }

  /** Every listed endpoint has an operation object. */
  ghost predicate AllObjects(es: seq<Endpoint>) {
    forall e <- es :: e.operation.Operation?
  }

  // ---- one endpoint per listed operation ----

  ghost predicate DistinctPaths(entries: seq<PathEntry>) {
    forall i, j :: 0 <= i < j < |entries| ==> entries[i].path != entries[j].path
  }

  ghost predicate DistinctEndpoints(es: seq<Endpoint>) {
    forall i, j :: 0 <= i < j < |es| ==> (es[i].verb, es[i].path) != (es[j].verb, es[j].path)
  }

  /** The endpoint of one listed operation. */
  function EndpointAt(entry: PathEntry, m: Method): Endpoint
    requires m in entry.operations
  {
    Endpoint(m, entry.path, entry.operations[m])
  }

  lemma {:induction false} OperationsListed(entry: PathEntry, methods: seq<Method>)
    requires Distinct(methods)
    ensures DistinctEndpoints(EndpointsOf(entry, methods))
    ensures forall e <- EndpointsOf(entry, methods) ::
              e.verb in methods && Listed(entry, e.verb) && e == EndpointAt(entry, e.verb)
    ensures forall m <- methods :: Listed(entry, m) ==> EndpointAt(entry, m) in EndpointsOf(entry, methods)
  {
    if |methods| > 0 {
      OperationsListed(entry, methods[1..]);
      assert methods == [methods[0]] + methods[1..];
    }
  }

  lemma MethodsAreAll()
    ensures Distinct(METHODS) && forall m: Method :: m in METHODS
  {
    forall m: Method ensures m in METHODS {
      match m
      case Get => assert METHODS[0] == m;
      case Post => assert METHODS[1] == m;
      case Put => assert METHODS[2] == m;
      case Patch => assert METHODS[3] == m;
      case Delete => assert METHODS[4] == m;
      case Options => assert METHODS[5] == m;
      case Head => assert METHODS[6] == m;
    }
  }

  lemma {:induction false} EntriesListed(entries: seq<PathEntry>)
    requires DistinctPaths(entries)
    ensures DistinctEndpoints(AllEndpoints(entries))
    ensures forall e <- AllEndpoints(entries) ::
              exists entry <- entries :: Listed(entry, e.verb) && e == EndpointAt(entry, e.verb)
    ensures forall entry <- entries, m: Method :: Listed(entry, m) ==> EndpointAt(entry, m) in AllEndpoints(entries)
  {
    if |entries| > 0 {
      MethodsAreAll();
      OperationsListed(entries[0], METHODS);
      EntriesListed(entries[1..]);
      assert entries == [entries[0]] + entries[1..];
      var a, b := EndpointsOf(entries[0], METHODS), AllEndpoints(entries[1..]);
      forall x, y | x in a && y in b ensures x.path != y.path {
        var entry :| entry in entries[1..] && Listed(entry, y.verb) && y == EndpointAt(entry, y.verb);
        var i :| 0 <= i < |entries[1..]| && entries[1..][i] == entry;
        assert entries[i + 1] == entry;
      }
      DistinctJoin(a, b);
    }
  }

  lemma DistinctJoin(a: seq<Endpoint>, b: seq<Endpoint>)
    requires DistinctEndpoints(a) && DistinctEndpoints(b)
    requires forall x, y :: x in a && y in b ==> x.path != y.path
    ensures DistinctEndpoints(a + b)
  {
    var es := a + b;
    forall i, j | 0 <= i < j < |es| ensures (es[i].verb, es[i].path) != (es[j].verb, es[j].path) {
      if i < |a| <= j { assert a[i] in a && b[j - |a|] in b; }
    }
  }

  /** With distinct paths, each listed operation is one endpoint, and there are no others. */
  lemma EveryOperationOnce(paths: seq<PathEntry>)
    requires DistinctPaths(paths)
    ensures DistinctEndpoints(Endpoints(paths)) && AllObjects(Endpoints(paths))
    ensures forall e <- Endpoints(paths) :: exists entry <- paths :: Listed(entry, e.verb) && e == EndpointAt(entry, e.verb)
    ensures forall entry <- paths, m: Method :: Listed(entry, m) ==> EndpointAt(entry, m) in Endpoints(paths)
  {
    StrLeIsOrder();
    forall x: PathEntry, y: PathEntry ensures PathLe(x, y) || PathLe(y, x) { StrLeTotal(x.path, y.path); }
    forall x: PathEntry, y: PathEntry, z: PathEntry | PathLe(x, y) && PathLe(y, z) ensures PathLe(x, z) {
      StrLeTransitive(x.path, y.path, z.path);
    }
    var entries := Sort(paths, PathLe);
    SortIsStable(paths, PathLe);
    forall entry ensures entry in entries <==> entry in paths {
      assert entry in multiset(entries) <==> entry in multiset(paths);
    }
    SortKeepsPathsDistinct(paths, entries);
    EntriesListed(entries);
  }

  lemma SortKeepsPathsDistinct(paths: seq<PathEntry>, entries: seq<PathEntry>)
    requires DistinctPaths(paths) && multiset(paths) == multiset(entries)
    ensures DistinctPaths(entries)
  {
    PermutedKeysDiffer(paths, entries, (entry: PathEntry) => entry.path);
  }

  // ---- the cells of a row ----

  /** Escaping leaves no bare pipe and no newline, wherever the white space around it is cut. */
  lemma EscapeTableIsSafe(value: string)
    ensures PipesEscaped(EscapeTable(value)) && '\n' !in EscapeTable(value)
  {
    var s := NewlinesToSpaces(EscapePipes(value));
    EscapePipesEscapes(value);
    LStripKeeps(s);
    RStripKeeps(LStrip(s));
  }

  lemma CellsByIndex(e: Endpoint)
    requires e.operation.Operation?
    ensures var cells := EndpointCells(e);
            forall cell :: cell in cells <==> cell == cells[0] || cell == cells[1] || cell == cells[2] || cell == cells[3]
                                              || cell == cells[4] || cell == cells[5] || cell == cells[6]
  {
  }

  lemma FixedCells(e: Endpoint)
    requires e.operation.Operation?
    ensures var cells := EndpointCells(e);
            PipesEscaped(cells[0]) && PipesEscaped(cells[2]) && '\n' !in cells[0] && '\n' !in cells[2]
  {
    hide EscapeTable;
  }

  /** An endpoint's row is one line of seven cells exactly when its path holds no newline and no bare pipe. */
  lemma EndpointRowIsWellFormed(e: Endpoint)
    requires e.operation.Operation?
    ensures |Cells(EndpointRow(e))| == 7 <==> PipesEscaped(e.path)
    ensures '\n' !in EndpointRow(e) <==> '\n' !in e.path
  {
    hide EscapeTable, Row, Cells, PipesEscaped, Name;
    var cells := EndpointCells(e);
    RowCells(cells);
    RowShows(cells, '\n');
    CellsByIndex(e);
    FixedCells(e);
    CodeKeepsPipes(e.path);
    assert '\n' in cells[1] <==> '\n' in e.path;
    EscapeTableIsSafe(e.operation.parameters);
    EscapeTableIsSafe(e.operation.request);
    EscapeTableIsSafe(e.operation.responses);
    EscapeTableIsSafe(e.operation.summary);
  }

  lemma GroupLineIsRow(tag: string, count: string)
    ensures "| `" + tag + "` | " + count + " |" == Row([Code(tag), count])
  {
    var cells := [Code(tag), count];
    assert cells[1..] == [count] && Join(cells[1..], " | ") == count;
    assert Join(cells, " | ") == Code(tag) + " | " + count;
  }

  /** A row of the group table has its two cells exactly when the tag holds no bare pipe. */
  lemma GroupRowHasTwoCells(tag: string, count: nat)
    ensures |Cells(GroupLine(tag, count))| == 2 <==> PipesEscaped(tag)
  {
    var cells := [Code(tag), Numeral(count)];
    GroupLineIsRow(tag, Numeral(count));
    RowCells(cells);
    CodeKeepsPipes(tag);
    assert PipesEscaped(cells[1]) by {
      assert forall i :: 0 <= i < |cells[1]| ==> IsDigit(cells[1][i]);
    }
    assert forall cell :: cell in cells <==> cell == cells[0] || cell == cells[1];
  }

  // ---- what the page shows ----

  /** A table row as a reader sees it: its first two cells, both code spans, and the whole line. */
  datatype ShownRow = ShownRow(verb: string, path: string, line: string)

  function ReadRow(line: string): seq<ShownRow> {
    var cells := LineCells(line);
    if |cells| >= 2 && CodeSpan(cells[0]).Some? && CodeSpan(cells[1]).Some?
    then [ShownRow(CodeSpan(cells[0]).value, CodeSpan(cells[1]).value, line)] else []
  }

  /** The lines behind the first heading of the endpoint tables. */
  function Behind(lines: seq<string>): (rest: seq<string>)
    ensures forall line <- rest :: line in lines
  {
    if |lines| == 0 then [] else if lines[0] == HEADING then lines[1..] else Behind(lines[1..])
  }

  /** The endpoint rows a reader of the page finds. */
  function ShownRows(text: string): seq<ShownRow> {
    InLines(ReadRow, Behind(Split(text, '\n')))
  }

  /** The row that is to show an endpoint. */
  function RowFor(e: Endpoint): ShownRow {
    ShownRow(Name(e.verb), e.path, EndpointRow(e))
  }

  function RowsFor(es: seq<Endpoint>): seq<ShownRow> {
    if |es| == 0 then [] else [RowFor(es[0])] + RowsFor(es[1..])
  }

  /** Rows found although no endpoint was printed: behind a heading that stands inside the front matter. */
  function StrayRows(before: seq<string>, after: seq<string>, es: seq<Endpoint>): seq<ShownRow> {
    InLines(ReadRow, Behind(LinesOf(FrontLines(before, after, es))))
  }

  /** A row of cells without bare pipes, the first two of them code spans. */
  lemma RowIsRead(verb: string, path: string, others: seq<string>)
    requires SpanText(verb) && SpanText(path) && forall cell <- others :: PipesEscaped(cell)
    ensures var line := Row([Code(verb), Code(path)] + others); ReadRow(line) == [ShownRow(verb, path, line)]
  {
    var cells := [Code(verb), Code(path)] + others;
    CodeKeepsPipes(verb);
    CodeKeepsPipes(path);
    assert forall cell <- cells :: cell == Code(verb) || cell == Code(path) || cell in others;
    hide Code, CodeSpan, Row, PipesEscaped, SpanText;
    RowCellsAreRead(cells);
    SpanIsRead(verb);
    SpanIsRead(path);
    assert cells[1..][0] == Code(path);
    assert PaddedCells(cells)[0] == Padded(Code(verb));
    assert PaddedCells(cells[1..])[0] == Padded(Code(path)) && PaddedCells(cells)[1] == PaddedCells(cells[1..])[0];
  }

  lemma NameIsSpan(m: Method)
    ensures SpanText(Name(m))
  {
  }

  lemma EndpointIsRead(e: Endpoint)
    requires e.operation.Operation? && SpanText(e.path)
    ensures ReadRow(EndpointRow(e)) == [RowFor(e)] && '\n' !in EndpointRow(e)
  {
    EndpointRowIsWellFormed(e);
    NameIsSpan(e.verb);
    hide ReadRow, EscapeTable, Row, Cells, PipesEscaped, Code;
    var cells := EndpointCells(e);
    var others := cells[2..];
    RowCells(cells);
    assert forall cell <- others :: cell in cells;
    assert cells == [Code(Name(e.verb)), Code(e.path)] + others;
    RowIsRead(Name(e.verb), e.path, others);
  }

  lemma {:induction false} EndpointsAreRead(es: seq<Endpoint>)
    requires AllObjects(es) && forall e <- es :: SpanText(e.path)
    ensures InFirstLines(ReadRow, RowsOf(es)) == RowsFor(es) && AllQuiet(ReadRow, RowsOf(es))
  {
    hide ReadRow, EndpointRow, RowFor, SpanText;
    if |es| > 0 {
      assert es[0] in es;
      EndpointIsRead(es[0]);
      OneLine(EndpointRow(es[0]));
      EndpointsAreRead(es[1..]);
      ConsFirstLines(ReadRow, EndpointRow(es[0]), RowsOf(es[1..]));
    }
  }

  lemma OneLineShowsNothing(line: string)
    requires '\n' !in line && |ReadRow(line)| == 0
    ensures |ReadRow(HeadLine(line))| == 0 && Quiet(ReadRow, line)
  {
    OneLine(line);
  }

  lemma TitleShowsNothing(tag: string)
    ensures |ReadRow(HeadLine("### " + tag))| == 0
    ensures Quiet(ReadRow, "### " + tag) <==> Quiet(ReadRow, tag)
  {
    SplitPrefixed("### ", tag);
  }

  lemma HeadRowShowsNothing()
    ensures ReadRow(Row(COLUMNS)) == []
  {
    assert COLUMNS[0] == "Method" && "Method"[0] == 'M' && PipesEscaped("Method");
    hide CodeSpan, LineCells, Row, PipesEscaped;
    FirstIsNoSpan(COLUMNS);
  }

  lemma ColumnsAreOneLine()
    ensures '\n' !in Row(COLUMNS)
  {
    assert forall column <- COLUMNS :: '\n' !in column;
    RowShows(COLUMNS, '\n');
  }

  lemma TableHeadShowsNothing()
    ensures |InFirstLines(ReadRow, TableHead())| == 0 && AllQuiet(ReadRow, TableHead())
  {
    hide ReadRow, Row, HeadLine, Quiet;
    ColumnsAreOneLine();
    HeadRowShowsNothing();
    OneLineShowsNothing(Row(COLUMNS));
    RuleShowsNothing();
    NothingInTwo(ReadRow, Row(COLUMNS), RULE);
  }

  lemma DashesAreOneCell()
    ensures SplitCells("---", false) == ["---"] && CodeSpan("---").None?
  {
    assert "---"[0] == '-';
    NotASpan("---");
    hide CodeSpan;
    EscapedIsWhole("---", false);
    assert EscapedFrom("---", false);
  }

  lemma RuledLineShowsNothing(rest: string)
    ensures ReadRow("|" + ("---" + ("|" + rest))) == []
  {
    DashesAreOneCell();
    hide CodeSpan, SplitCells;
    var line := "|" + ("---" + ("|" + rest));
    assert line[1..] == "---" + ("|" + rest);
    SplitAtPipe("---", rest, false);
  }

  lemma RuleShowsNothing()
    ensures |ReadRow(HeadLine(RULE))| == 0 && Quiet(ReadRow, RULE)
  {
    RuledLineShowsNothing(RULE_REST);
    RuleIsLine();
    hide ReadRow;
    OneLineShowsNothing(RULE);
  }

  lemma RuleIsLine()
    ensures '\n' !in RULE
  {
    assert '\n' !in RULE_REST && '\n' !in "---" && '\n' !in "|";
  }

  lemma TitleIsRead(tag: string)
    ensures |InFirstLines(ReadRow, ["### " + tag, ""])| == 0
    ensures AllQuiet(ReadRow, ["### " + tag, ""]) <==> Quiet(ReadRow, tag)
  {
    var title := "### " + tag;
    TitleShowsNothing(tag);
    OneLineShowsNothing("");
    hide ReadRow, Quiet, AllQuiet, HeadLine;
    OneText(ReadRow, "");
    ConsFirstLines(ReadRow, title, [""]);
    QuietConcat(ReadRow, [title], [""]);
    QuietOne(ReadRow, title);
    QuietOne(ReadRow, "");
    assert [title, ""] == [title] + [""];
  }

  lemma BlankIsRead()
    ensures |InFirstLines(ReadRow, [""])| == 0 && AllQuiet(ReadRow, [""])
  {
    OneLineShowsNothing("");
    hide ReadRow, Quiet, AllQuiet, HeadLine;
    OneText(ReadRow, "");
    QuietOne(ReadRow, "");
  }

  lemma SectionIsRead(tag: string, members: seq<Endpoint>)
    requires AllObjects(members) && forall e <- members :: SpanText(e.path)
    ensures InFirstLines(ReadRow, TagSection(tag, members)) == RowsFor(members)
    ensures AllQuiet(ReadRow, TagSection(tag, members)) <==> Quiet(ReadRow, tag)
  {
    hide ReadRow, SpanText, TableHead, HeadLine, Quiet, AllQuiet, InFirstLines, RowsOf, RowsFor;
    var title, head, rows := ["### " + tag, ""], TableHead(), RowsOf(members);
    TitleIsRead(tag);
    TableHeadShowsNothing();
    EndpointsAreRead(members);
    BlankIsRead();
    FirstLinesConcat(ReadRow, title + head, rows + [""]);
    FirstLinesConcat(ReadRow, title, head);
    FirstLinesConcat(ReadRow, rows, [""]);
    QuietConcat(ReadRow, title + head, rows + [""]);
    QuietConcat(ReadRow, title, head);
    QuietConcat(ReadRow, rows, [""]);
  }

  /** Within a group the listing order is kept. */
  predicate Always(x: Endpoint, y: Endpoint) { true }

  lemma {:induction false} SortByNothing(es: seq<Endpoint>)
    ensures Sort(es, Always) == es
  {
    if |es| > 0 {
      SortByNothing(es[1..]);
      assert es == [es[0]] + es[1..];
    }
  }

  lemma {:induction false} RowsForConcat(a: seq<Endpoint>, b: seq<Endpoint>)
    ensures RowsFor(a + b) == RowsFor(a) + RowsFor(b)
  {
    hide RowFor;
    if |a| == 0 {
      assert a + b == b;
    } else {
      RowsForConcat(a[1..], b);
      assert (a + b)[1..] == a[1..] + b && (a + b)[0] == a[0];
      Assoc([RowFor(a[0])], RowsFor(a[1..]), RowsFor(b));
    }
  }

  lemma {:induction false} SectionsAreRead(tags: seq<string>, es: seq<Endpoint>)
    requires AllObjects(es) && forall e <- es :: SpanText(e.path)
    ensures InFirstLines(ReadRow, TagSections(tags, es)) == RowsFor(Flatten(tags, es, TagOf, Always))
    ensures AllQuiet(ReadRow, TagSections(tags, es)) <==> forall tag <- tags :: Quiet(ReadRow, tag)
  {
    hide ReadRow, SpanText, TagSection, Quiet;
    if |tags| > 0 {
      var members := InGroup(es, TagOf, tags[0]);
      SectionsAreRead(tags[1..], es);
      SectionIsRead(tags[0], members);
      FirstLinesConcat(ReadRow, TagSection(tags[0], members), TagSections(tags[1..], es));
      SortByNothing(members);
      RowsForConcat(members, Flatten(tags[1..], es, TagOf, Always));
      assert tags == [tags[0]] + tags[1..];
      assert TagSections(tags, es) == TagSection(tags[0], members) + TagSections(tags[1..], es);
    }
  }

  // ---- the page as one text ----

  lemma {:induction false} ListedAreObjects(entry: PathEntry, methods: seq<Method>)
    ensures AllObjects(EndpointsOf(entry, methods))
  {
    if |methods| > 0 { ListedAreObjects(entry, methods[1..]); }
  }

  lemma {:induction false} AllAreObjects(entries: seq<PathEntry>)
    ensures AllObjects(AllEndpoints(entries))
  {
    if |entries| > 0 {
      ListedAreObjects(entries[0], METHODS);
      AllAreObjects(entries[1..]);
    }
  }

  lemma RowEnds(cells: seq<string>)
    ensures Row(cells) != "" && Row(cells)[|Row(cells)| - 1] == '|'
  {
  }

  lemma RowOfEndpointEnds(e: Endpoint)
    requires e.operation.Operation?
    ensures EndpointRow(e) != "" && EndpointRow(e)[|EndpointRow(e)| - 1] == '|'
  {
    RowEnds(EndpointCells(e));
  }

  lemma {:induction false} RowsEnd(es: seq<Endpoint>) returns (front: seq<string>, last: string)
    requires AllObjects(es) && es != []
    ensures RowsOf(es) == front + [last] && last != "" && last[|last| - 1] == '|'
  {
    hide EndpointRow;
    var rest := es[1..];
    assert es[0] in es;
    if |rest| == 0 {
      front, last := [], EndpointRow(es[0]);
      assert RowsOf(rest) == [];
      RowOfEndpointEnds(es[0]);
    } else {
      front, last := RowsEnd(rest);
      Assoc([EndpointRow(es[0])], front, [last]);
      front := [EndpointRow(es[0])] + front;
    }
  }

  lemma SectionEnds(tag: string, members: seq<Endpoint>) returns (front: seq<string>, last: string)
    requires AllObjects(members) && members != []
    ensures TagSection(tag, members) == front + [last, ""] && last != "" && last[|last| - 1] == '|'
  {
    hide TableHead, RowsOf;
    var rows, row := RowsEnd(members);
    var head := ["### " + tag, ""] + TableHead();
    front, last := head + rows, row;
    Assoc(rows, [row], [""]);
    assert [row] + [""] == [row, ""];
    Assoc(head, rows, [row, ""]);
  }

  /** The tables end with a row and an empty line. */
  lemma {:induction false} SectionsEnd(tags: seq<string>, es: seq<Endpoint>) returns (front: seq<string>, last: string)
    requires AllObjects(es) && tags != [] && forall tag <- tags :: InGroup(es, TagOf, tag) != []
    ensures TagSections(tags, es) == front + [last, ""] && last != "" && last[|last| - 1] == '|'
  {
    hide TagSection;
    var members, rest := InGroup(es, TagOf, tags[0]), tags[1..];
    assert tags[0] in tags;
    if |rest| == 0 {
      assert TagSections(rest, es) == [];
      front, last := SectionEnds(tags[0], members);
      assert TagSection(tags[0], members) + [] == TagSection(tags[0], members);
    } else {
      front, last := SectionsEnd(rest, es);
      Assoc(TagSection(tags[0], members), front, [last, ""]);
      front := TagSection(tags[0], members) + front;
    }
  }

  lemma PageEnds(before: seq<string>, after: seq<string>, es: seq<Endpoint>) returns (front: seq<string>, last: string)
    requires AllObjects(es)
    ensures PageLines(before, after, es) == front + [last, ""] && last != "" && !IsSpace(last[|last| - 1])
  {
    var tags, head := Sort(Groups(es, TagOf), StrLe), FrontLines(before, after, es);
    hide FrontLines;
    if tags == [] {
      front, last := head + [""], HEADING;
      assert ["", HEADING, ""] + [] == [""] + [HEADING, ""];
      Assoc(head, [""], [HEADING, ""]);
    } else {
      forall tag | tag in tags ensures InGroup(es, TagOf, tag) != [] {
        TagHasMembers(es, tag);
      }
      front, last := SectionsEnd(tags, es);
      Assoc(["", HEADING, ""], front, [last, ""]);
      Assoc(head, ["", HEADING, ""] + front, [last, ""]);
      front := head + (["", HEADING, ""] + front);
    }
  }

  lemma TagHasMembers(es: seq<Endpoint>, tag: string)
    requires tag in Sort(Groups(es, TagOf), StrLe)
    ensures InGroup(es, TagOf, tag) != []
  {
    var group: Endpoint -> string := TagOf;
    StrLeIsOrder();
    SortElements(Groups(es, group), StrLe);
    GroupsFacts(es, group);
    var e :| e in es && group(e) == tag;
    InOwnGroup(es, group, e);
  }

  /** Cutting white space off the end and adding a newline changes nothing: the page is its lines, joined. */
  lemma PageIsJoined(before: seq<string>, after: seq<string>, paths: seq<PathEntry>)
    ensures Page(before, after, paths) == Join(PageLines(before, after, Endpoints(paths)), "\n")
  {
    AllAreObjects(Sort(paths, PathLe));
    hide PageLines;
    var front, last := PageEnds(before, after, Endpoints(paths));
    JoinEnds(front, last);
    var all := Join(front + [last], "\n");
    assert (all + "\n")[..|all|] == all;
    assert RStrip(all) == all;
    assert RStrip(all + "\n") == all;
  }

  lemma BehindCons(line: string, rest: seq<string>)
    ensures Behind([line] + rest) == if line == HEADING then rest else Behind(rest)
  {
    assert ([line] + rest)[1..] == rest;
  }

  lemma BehindMark(tables: seq<string>)
    ensures Behind(["", HEADING, ""] + tables) == [""] + tables
  {
    assert ["", HEADING, ""] + tables == [""] + ([HEADING] + ([""] + tables));
    BehindCons("", [HEADING] + ([""] + tables));
    BehindCons(HEADING, [""] + tables);
  }

  lemma {:induction false} BehindFront(front: seq<string>, tables: seq<string>)
    ensures InLines(ReadRow, Behind(front + (["", HEADING, ""] + tables)))
         == InLines(ReadRow, Behind(front)) + InLines(ReadRow, tables)
  {
    var mark := ["", HEADING, ""];
    HeadingShowsNothing();
    if |front| == 0 {
      assert front + (mark + tables) == mark + tables && Behind(front) == [];
      hide ReadRow, Behind, InLines;
      BehindMark(tables);
      LinesConcat(ReadRow, [""], tables);
      NothingInNothing();
    } else {
      hide ReadRow, Behind, InLines;
      var first, rest := front[0], front[1..];
      assert front == [first] + rest && front + (mark + tables) == [first] + (rest + (mark + tables));
      BehindCons(first, rest);
      BehindCons(first, rest + (mark + tables));
      if first == HEADING {
        LinesConcat(ReadRow, rest, mark + tables);
        LinesConcat(ReadRow, mark, tables);
      } else {
        BehindFront(rest, tables);
      }
    }
  }

  lemma NothingInNothing()
    ensures InLines(ReadRow, []) == []
  {
  }

  lemma NoRow(line: string)
    requires line == "" || line[0] != '|'
    ensures ReadRow(line) == []
  {
  }

  lemma HeadingShowsNothing()
    ensures InLines(ReadRow, [""]) == [] && InLines(ReadRow, ["", HEADING, ""]) == []
  {
    assert HEADING[0] == '#';
    NoRow("");
    NoRow(HEADING);
    hide ReadRow;
    var mark := ["", HEADING, ""];
    forall line | line in mark ensures |ReadRow(line)| == 0 { }
    NothingInLines(ReadRow, [""]);
    NothingInLines(ReadRow, mark);
  }

  lemma MarkIsLines()
    ensures LinesOf(["", HEADING, ""]) == ["", HEADING, ""]
  {
    OneLineEach(["", HEADING, ""]);
  }

  lemma MarkedIsRead(front: seq<string>, tables: seq<string>)
    ensures ShownRows(Join(front + (["", HEADING, ""] + tables), "\n"))
         == InLines(ReadRow, Behind(LinesOf(front))) + InTexts(ReadRow, tables)
  {
    hide ReadRow, Split, Join, LinesOf, InLines, InTexts, Behind;
    var mark := ["", HEADING, ""];
    JoinedLines(front + (mark + tables));
    LinesOfConcat(front, mark + tables);
    LinesOfConcat(mark, tables);
    MarkIsLines();
    BehindFront(LinesOf(front), LinesOf(tables));
    InLinesOf(ReadRow, tables);
  }

  /** What a reader finds on the page: stray rows of the front matter, then what the tables show. */
  lemma PageIsRead(before: seq<string>, after: seq<string>, paths: seq<PathEntry>)
    ensures ShownRows(Page(before, after, paths))
         == StrayRows(before, after, Endpoints(paths))
            + InTexts(ReadRow, TagSections(Sort(Groups(Endpoints(paths), TagOf), StrLe), Endpoints(paths)))
  {
    hide ReadRow, Page, FrontLines, TagSections, Endpoints, Sort, Groups, Behind, ShownRows, Join;
    var es := Endpoints(paths);
    PageIsJoined(before, after, paths);
    MarkedIsRead(FrontLines(before, after, es), TagSections(Sort(Groups(es, TagOf), StrLe), es));
  }

  /** The rows show each non-empty operation of the document exactly once, in its own words, and nothing else. */
  ghost predicate ShowsExactly(rows: seq<ShownRow>, paths: seq<PathEntry>) {
    && Distinct(rows)
    && forall row :: row in rows <==>
         exists entry <- paths, m: Method :: Listed(entry, m) && row == RowFor(EndpointAt(entry, m))
  }

  lemma {:induction false} RowsForElements(es: seq<Endpoint>)
    ensures |RowsFor(es)| == |es| && forall i :: 0 <= i < |es| ==> RowsFor(es)[i] == RowFor(es[i])
  {
    if |es| > 0 { RowsForElements(es[1..]); }
  }

  lemma NamesDiffer(a: Method, b: Method)
    ensures Name(a) == Name(b) <==> a == b
  {
    assert Name(a)[0] == Name(b)[0] && Name(a)[1] == Name(b)[1] ==> a == b;
  }

  /** The endpoints' own rows show exactly the operations. */
  lemma OwnRowsShowExactly(paths: seq<PathEntry>)
    requires DistinctPaths(paths)
    ensures ShowsExactly(RowsFor(Endpoints(paths)), paths)
  {
    hide Endpoints, EndpointRow, Name;
    var es := Endpoints(paths);
    var rows := RowsFor(es);
    EveryOperationOnce(paths);
    RowsForElements(es);
    forall i, j | 0 <= i < j < |rows| ensures rows[i] != rows[j] {
      NamesDiffer(es[i].verb, es[j].verb);
    }
    forall row | row in rows
      ensures exists entry <- paths, m: Method :: Listed(entry, m) && row == RowFor(EndpointAt(entry, m))
    {
      var i :| 0 <= i < |rows| && rows[i] == row;
      assert es[i] in es;
      var entry :| entry in paths && Listed(entry, es[i].verb) && es[i] == EndpointAt(entry, es[i].verb);
    }
    forall entry, m: Method | entry in paths && Listed(entry, m) ensures RowFor(EndpointAt(entry, m)) in rows {
      var i :| 0 <= i < |es| && es[i] == EndpointAt(entry, m);
    }
  }

  lemma {:induction false} RowsForInsert(e: Endpoint, es: seq<Endpoint>, le: (Endpoint, Endpoint) -> bool)
    ensures multiset(RowsFor(Insert(e, es, le))) == multiset{RowFor(e)} + multiset(RowsFor(es))
  {
    if es == [] || le(e, es[0]) {
      assert ([e] + es)[1..] == es;
    } else {
      RowsForInsert(e, es[1..], le);
      assert ([es[0]] + Insert(e, es[1..], le))[1..] == Insert(e, es[1..], le);
    }
  }

  lemma {:induction false} RowsForSort(es: seq<Endpoint>, le: (Endpoint, Endpoint) -> bool)
    ensures multiset(RowsFor(Sort(es, le))) == multiset(RowsFor(es))
  {
    if |es| > 0 {
      RowsForSort(es[1..], le);
      RowsForInsert(es[0], Sort(es[1..], le), le);
    }
  }

  lemma PermutedShowsExactly(a: seq<ShownRow>, b: seq<ShownRow>, paths: seq<PathEntry>)
    requires multiset(a) == multiset(b) && ShowsExactly(a, paths)
    ensures ShowsExactly(b, paths)
  {
    SortedDistinct(a, b);
    forall row ensures row in a <==> row in b {
      assert row in multiset(a) <==> row in multiset(b);
    }
  }

  /** What a reader takes for a path is a text that a code span in a cell can show. */
  lemma ShownPathIsPlain(text: string, row: ShownRow)
    requires row in ShownRows(text)
    ensures SpanText(row.path)
  {
    var lines := Behind(Split(text, '\n'));
    FoundInLine(ReadRow, lines, row);
    SplitParts(text, '\n');
    var line :| line in lines && row in ReadRow(line);
    RowPathIsPlain(line);
  }

  lemma RowPathIsPlain(line: string)
    requires '\n' !in line
    ensures forall row <- ReadRow(line) :: SpanText(row.path)
  {
    hide CodeSpan, SpanText, LineCells;
    if ReadRow(line) != [] {
      ReadSpanIsText(line, 1);
    }
  }

  /** What the front matter and the tags have to be like for the tables to be read as they are meant. */
  ghost predicate QuietAround(before: seq<string>, after: seq<string>, es: seq<Endpoint>) {
    |StrayRows(before, after, es)| == 0 && forall e <- es :: Quiet(ReadRow, TagOf(e))
  }

  lemma TagsAreQuiet(es: seq<Endpoint>)
    ensures (forall tag <- Sort(Groups(es, TagOf), StrLe) :: Quiet(ReadRow, tag)) <==> forall e <- es :: Quiet(ReadRow, TagOf(e))
  {
    var group: Endpoint -> string := TagOf;
    hide Quiet, ReadRow;
    StrLeIsOrder();
    SortElements(Groups(es, group), StrLe);
    GroupsFacts(es, group);
    forall e | e in es ensures TagOf(e) in Groups(es, group) {
      assert group(e) == TagOf(e);
    }
  }

  /** With plain paths, the page shows at least the endpoints' rows, and exactly them where nothing around is read as a row. */
  lemma PlainPageIsRead(before: seq<string>, after: seq<string>, paths: seq<PathEntry>)
    requires forall e <- Endpoints(paths) :: SpanText(e.path)
    ensures var es, rows := Endpoints(paths), ShownRows(Page(before, after, paths));
            && |rows| >= |es|
            && (|rows| == |es| <==> QuietAround(before, after, es))
            && (|rows| == |es| ==> rows == RowsFor(Sort(es, Nested(TagOf, StrLe, Always))))
  {
    hide ReadRow, Page, TagSections, Endpoints, Groups, StrayRows, ShownRows, SpanText, Quiet, InTexts, RowsFor, InFirstLines;
    var es := Endpoints(paths);
    var tags, stray := Sort(Groups(es, TagOf), StrLe), StrayRows(before, after, es);
    var tables, sorted := TagSections(tags, es), Sort(es, Nested(TagOf, StrLe, Always));
    EndpointsAreObjects(paths);
    PageIsRead(before, after, paths);
    StrLeIsOrder();
    SectionsAreRead(tags, es);
    GroupedIsSorted(es, TagOf, StrLe, Always);
    QuietTexts(ReadRow, tables);
    TagsAreQuiet(es);
    RowsForElements(sorted);
    NestedIsPreorder(TagOf, StrLe, Always);
    SortIsStable(es, Nested(TagOf, StrLe, Always));
    assert |multiset(sorted)| == |sorted| && |multiset(es)| == |es|;
    if |stray| == 0 {
      assert stray + InTexts(ReadRow, tables) == InTexts(ReadRow, tables);
    }
  }

  lemma EndpointsAreObjects(paths: seq<PathEntry>)
    ensures AllObjects(Endpoints(paths))
  {
    AllAreObjects(Sort(paths, PathLe));
  }

  /**
   Conservation, on the printed page: a reader of the lines behind the heading
   finds each operation of the document in exactly one row, and nothing else,
   exactly when every path can be shown by a code span in a cell and nothing
   around the rows can be taken for one.
   */
  lemma PageShowsEveryEndpoint(before: seq<string>, after: seq<string>, paths: seq<PathEntry>)
    requires DistinctPaths(paths)
    ensures ShowsExactly(ShownRows(Page(before, after, paths)), paths)
       <==> (forall e <- Endpoints(paths) :: SpanText(e.path)) && QuietAround(before, after, Endpoints(paths))
  {
    hide ReadRow, Page, Endpoints, StrayRows, ShownRows, SpanText, Quiet, QuietAround, RowFor, Listed;
    var es, rows := Endpoints(paths), ShownRows(Page(before, after, paths));
    OwnRowsShowExactly(paths);
    RowsForElements(es);
    if ShowsExactly(rows, paths) {
      forall e | e in es ensures SpanText(e.path) {
        var i :| 0 <= i < |es| && es[i] == e;
        assert RowsFor(es)[i] in RowsFor(es);
        RowForPath(e);
        ShownPathIsPlain(Page(before, after, paths), RowFor(e));
      }
      SameDistinct(rows, RowsFor(es));
    }
    if forall e <- es :: SpanText(e.path) {
      PlainPageIsRead(before, after, paths);
      RowsForSort(es, Nested(TagOf, StrLe, Always));
      if |rows| == |es| {
        PermutedShowsExactly(RowsFor(es), rows, paths);
      }
    }
  }

  lemma RowForPath(e: Endpoint)
    ensures RowFor(e).path == e.path
  {
  }

  // ---- one-line tags, and where the law fails ----

  lemma {:induction false} NoHeading(lines: seq<string>)
    requires HEADING !in lines
    ensures Behind(lines) == []
  {
    if |lines| > 0 { NoHeading(lines[1..]); }
  }

  lemma {:induction false} GroupLinesAreLines(tags: seq<string>, es: seq<Endpoint>)
    requires forall tag <- tags :: '\n' !in tag
    ensures forall line <- GroupLines(tags, es) :: '\n' !in line && line != HEADING
  {
    if |tags| > 0 {
      assert tags[0] in tags;
      var line := GroupLine(tags[0], |InGroup(es, TagOf, tags[0])|);
      assert line[0] == '|' && HEADING[0] == '#';
      GroupLineIsLine(tags[0], |InGroup(es, TagOf, tags[0])|);
      GroupLinesAreLines(tags[1..], es);
    }
  }

  lemma GroupLineIsLine(tag: string, count: nat)
    requires '\n' !in tag
    ensures '\n' !in GroupLine(tag, count) && '\n' !in CountLine(count)
  {
    assert forall c <- Numeral(count) :: IsDigit(c);
  }

  /** One-line tags are quiet, between introductory lines that do not imitate the heading. */
  lemma OneLineTagsAreQuiet(before: seq<string>, after: seq<string>, es: seq<Endpoint>)
    requires forall line <- before + after :: '\n' !in line && line != HEADING
    requires forall e <- es :: '\n' !in TagOf(e)
    ensures QuietAround(before, after, es)
  {
    var tags, front := Sort(Groups(es, TagOf), StrLe), FrontLines(before, after, es);
    SortedTags(es);
    forall tag | tag in tags ensures '\n' !in tag {
      TagHasMembers(es, tag);
      assert InGroup(es, TagOf, tag)[0] in es;
    }
    GroupLinesAreLines(tags, es);
    GroupLineIsLine("", |es|);
    assert CountLine(|es|)[0] == '-' && HEADING[0] == '#';
    forall line | line in front ensures '\n' !in line && line != HEADING {
      assert line in before || line in after || line in GroupLines(tags, es) || line == CountLine(|es|);
      assert line in before + after <==> line in before || line in after;
    }
    OneLineEach(front);
    NoHeading(front);
    forall e | e in es ensures Quiet(ReadRow, TagOf(e)) {
      OneLine(TagOf(e));
    }
  }

  /** With one-line tags, the page shows each operation once exactly when every path can be shown by a code span in a cell. */
  lemma SpanTextsAreShown(before: seq<string>, after: seq<string>, paths: seq<PathEntry>)
    requires DistinctPaths(paths)
    requires forall line <- before + after :: '\n' !in line && line != HEADING
    requires forall e <- Endpoints(paths) :: '\n' !in TagOf(e)
    ensures ShowsExactly(ShownRows(Page(before, after, paths)), paths) <==> forall e <- Endpoints(paths) :: SpanText(e.path)
  {
    hide Page, Endpoints, ShowsExactly, ShownRows, QuietAround, SpanText;
    PageShowsEveryEndpoint(before, after, paths);
    OneLineTagsAreQuiet(before, after, Endpoints(paths));
  }

  const FAKE_ROW := Row([Code("GET"), Code("/fake")])
  const FAKE_TAG := "t" + "\n" + FAKE_ROW

  function FakeTagged(): PathEntry {
    PathEntry("/a", map[Get := Operation([FAKE_TAG], false, "", "", "", "")])
  }

  lemma FakeTagIsNotQuiet()
    ensures !Quiet(ReadRow, FAKE_TAG)
  {
    assert SpanText("GET") && SpanText("/fake");
    RowIsRead("GET", "/fake", []);
    FakeRowIsLine();
    assert [Code("GET"), Code("/fake")] + [] == [Code("GET"), Code("/fake")];
    hide ReadRow, Row, Code, SpanText;
    SplitTwo("t", FAKE_ROW);
    OneLine("t");
    OneLine(FAKE_ROW);
    assert Split(FAKE_TAG, '\n')[1..] == [FAKE_ROW];
    assert FAKE_ROW in [FAKE_ROW];
  }

  lemma FakeRowIsLine()
    ensures '\n' !in FAKE_ROW
  {
    RowShows([Code("GET"), Code("/fake")], '\n');
  }

  /** Whatever stands in front, a tag of two lines can put a row on the page that is no operation's. */
  lemma TwoLineTagFakesARow(before: seq<string>, after: seq<string>)
    ensures !ShowsExactly(ShownRows(Page(before, after, [FakeTagged()])), [FakeTagged()])
  {
    var entry := FakeTagged();
    FakeTagIsNotQuiet();
    EveryOperationOnce([entry]);
    assert entry in [entry] && Listed(entry, Get);
    assert TagOf(EndpointAt(entry, Get)) == FAKE_TAG;
    hide Page, Endpoints, ShowsExactly, ShownRows, Quiet, SpanText, StrayRows;
    PageShowsEveryEndpoint(before, after, [entry]);
  }

  /** A bare pipe in a path splits its cell. */
  lemma PipeInPathSplitsItsCell()
    ensures var e := Endpoint(Get, "/a|b", Operation([], false, "", "", "", "")); |Cells(EndpointRow(e))| != 7
  {
    var e := Endpoint(Get, "/a|b", Operation([], false, "", "", "", ""));
    assert e.path[2] == '|' && e.path[1] == 'a';
    hide EndpointRow, Cells;
    EndpointRowIsWellFormed(e);
  }

  function Piped(): PathEntry {
    PathEntry("/a|b", map[Get := Operation([], false, "", "", "", "")])
  }

  /** And a reader of cells does not find that path. */
  lemma PipedPathIsNotShown(before: seq<string>, after: seq<string>)
    ensures !ShowsExactly(ShownRows(Page(before, after, [Piped()])), [Piped()])
  {
    var entry := Piped();
    assert entry.path[2] == '|' && entry.path[1] == 'a';
    assert !SpanText(entry.path);
    EveryOperationOnce([entry]);
    assert entry in [entry] && Listed(entry, Get);
    hide Page, Endpoints, ShowsExactly, ShownRows, QuietAround, SpanText;
    assert EndpointAt(entry, Get).path == entry.path;
    PageShowsEveryEndpoint(before, after, [entry]);
  }
}
