/**
 The reference table and the required-env manifest, what the three renderers
 have in common, and the env file as a whole (tools/generate_env_reference.py).
 */
module EnvDocs {
  import opened Wrappers
  import opened Text
  import opened Sorting
  import opened Ordering
  import opened Tables
  import opened Reading
  import opened EnvRender
  import ManagedRegion

  // ---- the reference table ----

  function VaultCell(f: Field): string {
    if f.vault then "yes" else ""
  }

  function DefaultCell(f: Field): string {
    if f.default != "" then Code(f.default) else ""
  }

  function ExampleCell(f: Field): string {
    if f.value != "" && f.value != f.default then Code(f.value) else ""
  }

  function FieldCells(f: Field): seq<string> {
    [Code(f.key), DefaultCell(f), ExampleCell(f), VaultCell(f), f.group, NewlinesToSpaces(EscapePipes(f.description))]
  }

  function AliasRows(aliases: seq<string>, f: Field): seq<string> {
    if |aliases| == 0 then []
    else [Row([Code(aliases[0]), "", "", VaultCell(f), f.group, "Alias of " + Code(f.key) + "."])] + AliasRows(aliases[1..], f)
  }

  function FieldRows(f: Field): seq<string> {
    [Row(FieldCells(f))] + AliasRows(f.extraKeys, f)
  }

  function DocRows(fs: seq<Field>): seq<string> {
    if |fs| == 0 then [] else FieldRows(fs[0]) + DocRows(fs[1..])
  }

  /** The page: a fixed preamble, the rows, and a final empty line. */
  function DocLines(preamble: seq<string>, fields: seq<Field>, known: seq<string>): seq<string> {
    preamble + DocRows(Sort(fields, RowOrder(known))) + [""]
  }

  /** `render_reference_doc` */
  method RenderReferenceDoc(preamble: seq<string>, fields: seq<Field>, known: seq<string>) returns (text: string)
    ensures text == Join(DocLines(preamble, fields, known), "\n")
  {
    var rows := Sort(fields, RowOrder(known));
    var lines := preamble;
    for i := 0 to |rows|
      invariant lines + DocRows(rows[i..]) == preamble + DocRows(rows)
    {
      assert rows[i..][1..] == rows[i + 1..];
      var f := rows[i];
      Assoc(lines, FieldRows(f), DocRows(rows[i + 1..]));
      ghost var before := lines;
      var added := [Row(FieldCells(f))];
      assert f.extraKeys[0..] == f.extraKeys;
      for j := 0 to |f.extraKeys|
        invariant added + AliasRows(f.extraKeys[j..], f) == FieldRows(f)
      {
        assert f.extraKeys[j..][1..] == f.extraKeys[j + 1..];
        var row := Row([Code(f.extraKeys[j]), "", "", VaultCell(f), f.group, "Alias of " + Code(f.key) + "."]);
        Assoc(added, [row], AliasRows(f.extraKeys[j + 1..], f));
        added := added + [row];
      }
      assert f.extraKeys[|f.extraKeys|..] == [] && added + [] == added;
      lines := lines + added;
    }
    assert rows[|rows|..] == [] && lines + [] == lines;
    return Join(lines + [""], "\n");
  }

  /** The key a table line documents: its first cell, if that is a code span. */
  function RowKeys(line: string): seq<string> {
    var cells := LineCells(line);
    if |cells| >= 1 && CodeSpan(cells[0]).Some? then [CodeSpan(cells[0]).value] else []
  }

  function DocKeys(text: string): seq<string> {
    InText(RowKeys, text)
  }

  /** Every key, followed by its aliases. */
  function KeyList(fs: seq<Field>): seq<string> {
    if |fs| == 0 then [] else [fs[0].key] + fs[0].extraKeys + KeyList(fs[1..])
  }

  predicate SpanKeys(f: Field) {
    SpanText(f.key) && forall i :: 0 <= i < |f.extraKeys| ==> SpanText(f.extraKeys[i])
  }

  /** A field whose rows are read as they are meant: no further line of theirs starts with a code span. */
  ghost predicate TableShows(f: Field) {
    SpanKeys(f) && AllQuiet(RowKeys, FieldRows(f))
  }

  lemma KeyIsRead(key: string, rest: string)
    requires SpanText(key)
    ensures RowKeys(HeadLine("|" + Padded(Code(key)) + "|" + rest)) == [key]
  {
    CodeKeepsPipes(key);
    SpanIsRead(key);
    assert '\n' !in "|" + Padded(Code(key)) + "|";
    hide CodeSpan, Padded, Code, PipesEscaped;
    SplitPrefixed("|" + Padded(Code(key)) + "|", rest);
    FirstCellIsRead(Code(key), HeadLine(rest));
  }

  lemma RowNamesKey(key: string, cells: seq<string>)
    requires SpanText(key) && |cells| > 0
    ensures RowKeys(HeadLine(Row([Code(key)] + cells))) == [key]
  {
    var all := [Code(key)] + cells;
    assert all[1..] == cells;
    hide RowKeys, HeadLine, Row, Code;
    RowIsClosed(all);
    assert "|" + Closed(all) == "|" + Padded(Code(key)) + "|" + Closed(cells);
    KeyIsRead(key, Closed(cells));
  }

  function AliasCells(f: Field): seq<string> {
    ["", "", VaultCell(f), f.group, "Alias of " + Code(f.key) + "."]
  }

  lemma {:induction false} AliasRowsName(aliases: seq<string>, f: Field)
    requires forall i :: 0 <= i < |aliases| ==> SpanText(aliases[i])
    ensures InFirstLines(RowKeys, AliasRows(aliases, f)) == aliases
  {
    hide RowKeys, HeadLine, Row, VaultCell, Code;
    if |aliases| > 0 {
      RowNamesKey(aliases[0], AliasCells(f));
      assert [Code(aliases[0])] + AliasCells(f) == [Code(aliases[0]), "", "", VaultCell(f), f.group, "Alias of " + Code(f.key) + "."];
      AliasRowsName(aliases[1..], f);
      ConsFirstLines(RowKeys, Row([Code(aliases[0])] + AliasCells(f)), AliasRows(aliases[1..], f));
    }
  }

  lemma FieldRowsName(f: Field)
    requires SpanKeys(f)
    ensures InFirstLines(RowKeys, FieldRows(f)) == [f.key] + f.extraKeys
  {
    AliasRowsName(f.extraKeys, f);
    RowNamesKey(f.key, FieldCells(f)[1..]);
    assert [Code(f.key)] + FieldCells(f)[1..] == FieldCells(f);
    ConsFirstLines(RowKeys, Row(FieldCells(f)), AliasRows(f.extraKeys, f));
  }

  lemma {:induction false} DocRowsName(fs: seq<Field>)
    requires forall f <- fs :: SpanKeys(f)
    ensures InFirstLines(RowKeys, DocRows(fs)) == KeyList(fs)
  {
    hide RowKeys, SpanKeys, FieldRows;
    if |fs| > 0 {
      assert fs[0] in fs;
      FieldRowsName(fs[0]);
      DocRowsName(fs[1..]);
      FirstLinesConcat(RowKeys, FieldRows(fs[0]), DocRows(fs[1..]));
    }
  }

  lemma {:induction false} DocRowsQuiet(fs: seq<Field>)
    ensures AllQuiet(RowKeys, DocRows(fs)) <==> forall f <- fs :: AllQuiet(RowKeys, FieldRows(f))
  {
    hide RowKeys, Quiet, FieldRows;
    if |fs| > 0 {
      DocRowsQuiet(fs[1..]);
      assert fs == [fs[0]] + fs[1..];
      assert DocRows(fs) == FieldRows(fs[0]) + DocRows(fs[1..]);
    }
  }

  /** A preamble that documents no key. */
  predicate PlainPreamble(preamble: seq<string>) {
    |InTexts(RowKeys, preamble)| == 0
  }

  // The sentences of the preamble, in pieces.
  const GENERATED := ["<!-- GENERATED by ", "tools/generate_env_ref", "erence.py — do not ", "edit. -->"]
  const TITLE := ["# Backend Environment", " Reference"]
  const ORIGIN := ["Generated from `apps/", "backend/src/config.py` ", "(`Settings` pydantic ", "metadata)."]
  const ADVICE := ["Run `python tools/", "generate_env_reference", ".py` to regenerate."]
  const EXAMPLES := ["Where a field's `.env.", "example` value inten", "tionally differs from "] + CONVENIENCE
  const CONVENIENCE := ["its code default ", "(local-dev convenience)", ", both are shown."]
  const COLUMNS := ["Key", "Default", "Example", "Vault", "Group", "Description"]
  const RULES := ["---", "---", "---", "---", "---", "---"]

  /** The lines the page starts with. */
  function Preamble(): seq<string> {
    [Join(GENERATED, ""), "", Join(TITLE, ""), "", Join(ORIGIN, ""), Join(ADVICE, ""), "", Join(EXAMPLES, ""), "",
     Row(COLUMNS), Row(RULES)]
  }

  lemma {:induction false} JoinedIsLine(pieces: seq<string>)
    requires forall piece <- pieces :: '\n' !in piece
    ensures '\n' !in Join(pieces, "")
  {
    if |pieces| > 1 { JoinedIsLine(pieces[1..]); }
  }

  predicate ShowsNoKey(line: string) {
    '\n' !in line && |RowKeys(line)| == 0
  }

  predicate IsSentence(pieces: seq<string>) {
    |pieces| > 0 && pieces[0] != "" && pieces[0][0] != '|' && forall piece <- pieces :: '\n' !in piece
  }

  lemma SentenceShowsNothing(pieces: seq<string>)
    requires IsSentence(pieces)
    ensures ShowsNoKey(Join(pieces, ""))
  {
    JoinedIsLine(pieces);
    assert Join(pieces, "")[0] == pieces[0][0];
  }

  lemma OtherRowShowsNothing(cells: seq<string>)
    requires |cells| > 1 && cells[0] != "" && !IsSpace(cells[0][0]) && cells[0][0] != '`' && PipesEscaped(cells[0])
    requires forall cell <- cells :: '\n' !in cell
    ensures ShowsNoKey(Row(cells))
  {
    RowShows(cells, '\n');
    hide CodeSpan, LineCells, Row;
    FirstIsNoSpan(cells);
  }

  lemma GeneratedShowsNothing()
    ensures ShowsNoKey(Join(GENERATED, ""))
  {
    assert IsSentence(GENERATED);
    hide IsSentence, ShowsNoKey, Join;
    SentenceShowsNothing(GENERATED);
  }

  lemma TitleShowsNothing()
    ensures ShowsNoKey(Join(TITLE, ""))
  {
    assert IsSentence(TITLE);
    hide IsSentence, ShowsNoKey, Join;
    SentenceShowsNothing(TITLE);
  }

  lemma OriginShowsNothing()
    ensures ShowsNoKey(Join(ORIGIN, ""))
  {
    assert IsSentence(ORIGIN);
    hide IsSentence, ShowsNoKey, Join;
    SentenceShowsNothing(ORIGIN);
  }

  lemma AdviceShowsNothing()
    ensures ShowsNoKey(Join(ADVICE, ""))
  {
    assert IsSentence(ADVICE);
    hide IsSentence, ShowsNoKey, Join;
    SentenceShowsNothing(ADVICE);
  }

  lemma ExamplesShowsNothing()
    ensures ShowsNoKey(Join(EXAMPLES, ""))
  {
    assert forall piece <- CONVENIENCE :: '\n' !in piece;
    assert IsSentence(EXAMPLES);
    hide IsSentence, ShowsNoKey, Join;
    SentenceShowsNothing(EXAMPLES);
  }

  lemma ColumnsShowNothing()
    ensures ShowsNoKey(Row(COLUMNS))
  {
    hide Row, ShowsNoKey;
    OtherRowShowsNothing(COLUMNS);
  }

  lemma RulesShowNothing()
    ensures ShowsNoKey(Row(RULES))
  {
    hide Row, ShowsNoKey;
    OtherRowShowsNothing(RULES);
  }

  lemma PlainLines(lines: seq<string>)
    requires forall line <- lines :: ShowsNoKey(line)
    ensures PlainPreamble(lines)
  {
    forall i | 0 <= i < |lines| ensures '\n' !in lines[i] && |RowKeys(lines[i])| == 0 {
      assert ShowsNoKey(lines[i]);
    }
    hide CodeSpan, LineCells;
    NothingInTexts(RowKeys, lines);
  }

  lemma FirstLinesShowNothing()
    ensures ShowsNoKey(Join(GENERATED, "")) && ShowsNoKey(Join(TITLE, "")) && ShowsNoKey(Join(ORIGIN, "")) && ShowsNoKey("")
  {
    assert ShowsNoKey("");
    hide ShowsNoKey, Join;
    GeneratedShowsNothing();
    TitleShowsNothing();
    OriginShowsNothing();
  }

  lemma LastLinesShowNothing()
    ensures ShowsNoKey(Join(ADVICE, "")) && ShowsNoKey(Join(EXAMPLES, "")) && ShowsNoKey(Row(COLUMNS)) && ShowsNoKey(Row(RULES))
  {
    hide ShowsNoKey, Join, Row;
    AdviceShowsNothing();
    ExamplesShowsNothing();
    ColumnsShowNothing();
    RulesShowNothing();
  }

  /** What the page starts with documents no key. */
  lemma PreambleIsPlain()
    ensures PlainPreamble(Preamble())
  {
    hide Join, Row, ShowsNoKey, PlainPreamble;
    FirstLinesShowNothing();
    LastLinesShowNothing();
    PlainLines(Preamble());
  }

  lemma DocIsRead(preamble: seq<string>, fields: seq<Field>, known: seq<string>)
    requires PlainPreamble(preamble)
    ensures DocKeys(Join(DocLines(preamble, fields, known), "\n")) == InTexts(RowKeys, DocRows(Sort(fields, RowOrder(known))))
  {
    hide RowKeys, DocRows, Sort;
    var rows := DocRows(Sort(fields, RowOrder(known)));
    JoinedTexts(RowKeys, DocLines(preamble, fields, known));
    TextsConcat(RowKeys, preamble + rows, [""]);
    TextsConcat(RowKeys, preamble, rows);
    BlankHasNoKey();
    assert InTexts(RowKeys, preamble) + InTexts(RowKeys, rows) == InTexts(RowKeys, rows);
  }

  lemma BlankHasNoKey()
    ensures |InTexts(RowKeys, [""])| == 0
  {
    OneText(RowKeys, "");
    OneLine("");
    QuietText(RowKeys, "");
  }

  lemma ReadKeyIsSpan(text: string, key: string)
    requires key in DocKeys(text)
    ensures SpanText(key)
  {
    var line := FoundInText(RowKeys, text, key);
    hide CodeSpan, SpanText, LineCells;
    ReadSpanIsText(line, 0);
  }

  lemma {:induction false} KeyInList(fs: seq<Field>, f: Field, key: string)
    requires f in fs && (key == f.key || key in f.extraKeys)
    ensures key in KeyList(fs)
  {
    if f != fs[0] { KeyInList(fs[1..], f, key); }
  }

  /**
   The table documents the keys and aliases of the sorted fields, in that order
   and nothing else, exactly when every key can be shown by a code span in a
   cell and no further line of a row starts with one.
   */
  lemma DocListsKeys(preamble: seq<string>, fields: seq<Field>, known: seq<string>)
    requires PlainPreamble(preamble)
    ensures DocKeys(Join(DocLines(preamble, fields, known), "\n")) == KeyList(Sort(fields, RowOrder(known)))
       <==> forall f <- fields :: TableShows(f)
  {
    hide RowKeys, SpanText, FieldRows, DocKeys, DocLines, Quiet;
    var text, rows := Join(DocLines(preamble, fields, known), "\n"), Sort(fields, RowOrder(known));
    OrdersAreTotal(known);
    SortElements(fields, RowOrder(known));
    DocIsRead(preamble, fields, known);
    DocRowsQuiet(rows);
    QuietTexts(RowKeys, DocRows(rows));
    if DocKeys(text) == KeyList(rows) {
      forall f, key | f in fields && (key == f.key || key in f.extraKeys) ensures SpanText(key) {
        KeyInList(rows, f, key);
        ReadKeyIsSpan(text, key);
      }
    }
    if forall f <- fields :: SpanKeys(f) {
      DocRowsName(rows);
    }
  }

  // ---- one-line cells ----

  lemma RowIsLine(cells: seq<string>)
    requires forall i :: 0 <= i < |cells| ==> '\n' !in cells[i]
    ensures '\n' !in Row(cells)
  {
    RowShows(cells, '\n');
  }

  lemma {:induction false} AliasRowsAreLines(aliases: seq<string>, f: Field)
    requires SpanText(f.key) && '\n' !in f.group && forall i :: 0 <= i < |aliases| ==> SpanText(aliases[i])
    ensures forall row <- AliasRows(aliases, f) :: '\n' !in row
  {
    hide Row;
    if |aliases| > 0 {
      RowIsLine([Code(aliases[0]), "", "", VaultCell(f), f.group, "Alias of " + Code(f.key) + "."]);
      AliasRowsAreLines(aliases[1..], f);
    }
  }

  /** One-line defaults, values and groups suffice; a description may have any number of lines. */
  lemma OneLineFieldsAreShown(f: Field)
    requires SpanKeys(f) && '\n' !in f.default && '\n' !in f.value && '\n' !in f.group
    ensures TableShows(f)
  {
    AliasRowsAreLines(f.extraKeys, f);
    RowIsLine(FieldCells(f));
    forall row | row in FieldRows(f) ensures Quiet(RowKeys, row) {
      OneLine(row);
    }
  }

  // ---- the manifest ----

  datatype ManifestEntry = ManifestEntry(field: string, env: string, aliases: seq<string>, group: string, vault: bool,
                                         hasDefault: bool)

  function Entries(fs: seq<Field>): seq<ManifestEntry> {
    if |fs| == 0 then []
    else [ManifestEntry(fs[0].name, fs[0].key, fs[0].extraKeys, fs[0].group, fs[0].vault, fs[0].hasDefault)] + Entries(fs[1..])
  }

  /** The "fields" list of `render_required_env_manifest`. */
  function Manifest(fields: seq<Field>): seq<ManifestEntry> {
    Entries(Sort(fields, KeyLe))
  }

  function ManifestKeys(entries: seq<ManifestEntry>): seq<string> {
    if |entries| == 0 then [] else [entries[0].env] + entries[0].aliases + ManifestKeys(entries[1..])
  }

  lemma {:induction false} EntriesKeys(fs: seq<Field>)
    ensures ManifestKeys(Entries(fs)) == KeyList(fs)
  {
    if |fs| > 0 { EntriesKeys(fs[1..]); }
  }

  // ---- what the three have in common ----

  function Keys(bindings: seq<Binding>): seq<string> {
    if |bindings| == 0 then [] else [bindings[0].0] + Keys(bindings[1..])
  }

  lemma ConsKey(b: Binding, rest: seq<Binding>)
    ensures Keys([b] + rest) == [b.0] + Keys(rest)
  {
    assert ([b] + rest)[1..] == rest;
  }

  lemma {:induction false} KeysOfAliases(aliases: seq<string>, value: string, rest: seq<Binding>)
    ensures Keys(AliasBindings(aliases, value) + rest) == aliases + Keys(rest)
  {
    if |aliases| == 0 {
      assert AliasBindings(aliases, value) + rest == rest;
    } else {
      KeysOfAliases(aliases[1..], value, rest);
      Assoc([(aliases[0], value)], AliasBindings(aliases[1..], value), rest);
      ConsKey((aliases[0], value), AliasBindings(aliases[1..], value) + rest);
      Assoc([aliases[0]], aliases[1..], Keys(rest));
      assert [aliases[0]] + aliases[1..] == aliases;
    }
  }

  lemma KeysOfOwn(f: Field, rest: seq<Binding>)
    ensures Keys(OwnBindings(f) + rest) == [f.key] + f.extraKeys + Keys(rest)
  {
    KeysOfAliases(f.extraKeys, f.value, rest);
    Assoc([(f.key, f.value)], AliasBindings(f.extraKeys, f.value), rest);
    ConsKey((f.key, f.value), AliasBindings(f.extraKeys, f.value) + rest);
    Assoc([f.key], f.extraKeys, Keys(rest));
  }

  lemma {:induction false} KeysOfFirst(fs: seq<Field>)
    ensures Keys(FirstBindings(fs)) == KeyList(fs)
  {
    hide OwnBindings;
    if |fs| > 0 {
      KeysOfFirst(fs[1..]);
      KeysOfOwn(Shown(fs[0]), FirstBindings(fs[1..]));
    }
  }

  lemma {:induction false} KeyOfBinding(bindings: seq<Binding>, key: string)
    requires key in Keys(bindings)
    ensures exists b <- bindings :: b.0 == key
  {
    if bindings[0].0 != key {
      KeyOfBinding(bindings[1..], key);
    } else {
      assert bindings[0] in bindings;
    }
  }

  lemma {:induction false} KeyListOfInsert(x: Field, xs: seq<Field>, le: (Field, Field) -> bool)
    ensures multiset(KeyList(Insert(x, xs, le))) == multiset([x.key] + x.extraKeys) + multiset(KeyList(xs))
  {
    if xs == [] || le(x, xs[0]) {
      assert ([x] + xs)[1..] == xs;
    } else {
      KeyListOfInsert(x, xs[1..], le);
      assert ([xs[0]] + Insert(x, xs[1..], le))[1..] == Insert(x, xs[1..], le);
    }
  }

  lemma {:induction false} KeyListOfSort(fs: seq<Field>, le: (Field, Field) -> bool)
    ensures multiset(KeyList(Sort(fs, le))) == multiset(KeyList(fs))
  {
    if fs != [] {
      KeyListOfSort(fs[1..], le);
      KeyListOfInsert(fs[0], Sort(fs[1..], le), le);
    }
  }

  /** A leaked binding is a key too many. */
  lemma {:induction false} KeysLength(bindings: seq<Binding>)
    ensures |Keys(bindings)| == |bindings|
  {
    if |bindings| > 0 { KeysLength(bindings[1..]); }
  }

  /**
   The block lists the keys and aliases of the sorted fields, in that order and
   nothing else, exactly when every key can be read and no field has a further
   line that binds anything.
   */
  lemma BlockListsKeys(fields: seq<Field>, known: seq<string>)
    ensures Keys(EnvBindings(BackendBlock(fields, known))) == KeyList(Sort(fields, RowOrder(known)))
       <==> forall f <- fields :: ReadableKeys(f) && QuietField(f)
  {
    hide LineBindings, QuietField, ReadableKey, BackendBlock, EnvBindings, BlockLines;
    var block, rows := BackendBlock(fields, known), Sort(fields, RowOrder(known));
    OrdersAreTotal(known);
    SortElements(fields, RowOrder(known));
    if Keys(EnvBindings(block)) == KeyList(rows) {
      forall f, key | f in fields && (key == f.key || key in f.extraKeys) ensures ReadableKey(key) {
        KeyInList(rows, f, key);
        KeyOfBinding(EnvBindings(block), key);
        var b :| b in EnvBindings(block) && b.0 == key;
        ReadIsReadable(block, b);
      }
    }
    if forall f <- fields :: ReadableKeys(f) {
      BlockIsTexts(fields, known);
      BlockFirstLines(fields, known);
      QuietTexts(LineBindings, BlockLines(fields, known));
      KeysOfFirst(rows);
      KeysLength(EnvBindings(block));
      KeysLength(FirstBindings(rows));
    }
  }

  /**
   The sorted list of keys and aliases holds each as often as the fields do.
   The manifest always lists them; the table and the block each list them, in
   one order, exactly under their own condition on the fields.
   */
  lemma RenderersListSameKeys(preamble: seq<string>, fields: seq<Field>, known: seq<string>)
    requires PlainPreamble(preamble)
    ensures multiset(KeyList(Sort(fields, RowOrder(known)))) == multiset(KeyList(fields))
    ensures multiset(ManifestKeys(Manifest(fields))) == multiset(KeyList(fields))
    ensures DocKeys(Join(DocLines(preamble, fields, known), "\n")) == KeyList(Sort(fields, RowOrder(known)))
       <==> forall f <- fields :: TableShows(f)
    ensures Keys(EnvBindings(BackendBlock(fields, known))) == KeyList(Sort(fields, RowOrder(known)))
       <==> forall f <- fields :: ReadableKeys(f) && QuietField(f)
  {
    hide TableShows, QuietField, ReadableKeys, BackendBlock, EnvBindings, DocKeys, DocLines;
    DocListsKeys(preamble, fields, known);
    BlockListsKeys(fields, known);
    KeyListOfSort(fields, RowOrder(known));
    EntriesKeys(Sort(fields, KeyLe));
    KeyListOfSort(fields, KeyLe);
  }

  ghost predicate DistinctKeys(fs: seq<Field>) {
    forall i, j :: 0 <= i < j < |fs| ==> fs[i].key != fs[j].key
  }

  lemma {:induction false} SectionsSame(groups: seq<string>, xs: seq<Field>, ys: seq<Field>)
    requires forall g <- groups :: Sort(InGroup(xs, GroupOf, g), KeyLe) == Sort(InGroup(ys, GroupOf, g), KeyLe)
    ensures Sections(groups, xs) == Sections(groups, ys)
  {
    if |groups| > 0 {
      assert groups[0] in groups;
      SectionsSame(groups[1..], xs, ys);
    }
  }

  /** The block sees no more of the field list than the table does. */
  lemma BlockFollowsClasses(xs: seq<Field>, ys: seq<Field>, known: seq<string>)
    requires SameClasses(xs, ys, RowOrder(known))
    ensures BackendBlock(xs, known) == BackendBlock(ys, known)
  {
    OrdersAreTotal(known);
    var gle := GroupOrder(known);
    forall g: string
      ensures Sort(InGroup(xs, GroupOf, g), KeyLe) == Sort(InGroup(ys, GroupOf, g), KeyLe)
      ensures g in Groups(xs, GroupOf) <==> g in Groups(ys, GroupOf)
    {
      SameClassesByGroup(xs, ys, GroupOf, gle, KeyLe, g);
      SortInsensitive(InGroup(xs, GroupOf, g), InGroup(ys, GroupOf, g), KeyLe);
    }
    GroupsFacts(xs, GroupOf);
    GroupsFacts(ys, GroupOf);
    SortOfSameSet(Groups(xs, GroupOf), Groups(ys, GroupOf), gle);
    SectionsSame(Sort(Groups(xs, GroupOf), gle), xs, ys);
  }

  /** Permuting fields with distinct keys changes none of the three renderings. */
  lemma OrderInsensitive(preamble: seq<string>, xs: seq<Field>, ys: seq<Field>, known: seq<string>)
    requires multiset(xs) == multiset(ys) && DistinctKeys(xs)
    ensures BackendBlock(xs, known) == BackendBlock(ys, known)
    ensures DocLines(preamble, xs, known) == DocLines(preamble, ys, known)
    ensures Manifest(xs) == Manifest(ys)
  {
    OrdersAreTotal(known);
    PermutedKeysDiffer(xs, ys, (f: Field) => f.key);
    KeysSeparate(xs, known);
    KeysSeparate(ys, known);
    PermutedSeparated(xs, ys, KeyLe);
    PermutedSeparated(xs, ys, RowOrder(known));
    SortInsensitive(xs, ys, KeyLe);
    SortInsensitive(xs, ys, RowOrder(known));
    BlockFollowsClasses(xs, ys, known);
  }

  lemma KeysSeparate(fs: seq<Field>, known: seq<string>)
    requires DistinctKeys(fs)
    ensures Separated(fs, KeyLe) && Separated(fs, RowOrder(known))
  {
    var le := RowOrder(known);
    forall i, j | 0 <= i < j < |fs|
      ensures !(KeyLe(fs[i], fs[j]) && KeyLe(fs[j], fs[i])) && !(le(fs[i], fs[j]) && le(fs[j], fs[i]))
    {
      StrLeTotal(fs[i].key, fs[j].key);
      OrdersAreTotal(known);
    }
  }

  // ---- table cells ----

  lemma PlainIsEscaped(s: string)
    requires '|' !in s
    ensures PipesEscaped(s)
  {
  }

  /** A field's row has its six cells exactly when nothing shown outside the description holds a bare pipe. */
  lemma FieldRowHasSixCells(f: Field)
    ensures |Cells(Row(FieldCells(f)))| == 6
       <==> PipesEscaped(f.key) && PipesEscaped(f.default) && PipesEscaped(f.value) && PipesEscaped(f.group)
  {
    var cells := FieldCells(f);
    RowCells(cells);
    EscapePipesEscapes(f.description);
    CodeKeepsPipes(f.key);
    CodeKeepsPipes(f.default);
    CodeKeepsPipes(f.value);
    hide PipesEscaped, Cells, Row, EscapePipes, NewlinesToSpaces, Code;
    assert PipesEscaped("") && PipesEscaped("yes") by { PlainIsEscaped(""); PlainIsEscaped("yes"); }
    assert forall cell :: cell in cells <==>
      cell == cells[0] || cell == cells[1] || cell == cells[2] || cell == cells[3] || cell == cells[4] || cell == cells[5];
  }

  // ---- the env file as a whole ----

  lemma {:induction false} ContainsInLine(p: string, lines: seq<string>)
    requires p != "" && '\n' !in p
    ensures Contains(p, Join(lines, "\n")) <==> exists line <- lines :: Contains(p, line)
  {
    if |lines| == 0 {
      assert !OccursAt(p, "", 0);
    } else if |lines| == 1 {
      assert lines == [lines[0]];
    } else {
      ContainsInLine(p, lines[1..]);
      var rest := Join(lines[1..], "\n");
      ContainsEither(p, lines[0], rest);
      assert Join(lines, "\n") == lines[0] + ['\n'] + rest;
      assert lines == [lines[0]] + lines[1..];
    }
  }

  lemma ContainsEither(p: string, a: string, b: string)
    requires p != "" && '\n' !in p
    ensures Contains(p, a + ['\n'] + b) <==> Contains(p, a) || Contains(p, b)
  {
    var s := a + ['\n'] + b;
    if Contains(p, s) {
      OccursAround(p, a, '\n', b, Find(p, s).value);
    }
    if Contains(p, a) {
      ContainsInPrefix(p, a, ['\n'] + b);
      Assoc(a, ['\n'], b);
    }
    if Contains(p, b) {
      var i := Find(p, b).value;
      assert s[|a| + 1 + i..|a| + 1 + i + |p|] == b[i..i + |p|];
      assert OccursAt(p, s, |a| + 1 + i);
    }
  }

  /** Regenerating the env file forgets the previous fields exactly when none of their lines shows the END marker. */
  lemma EnvFileRegeneration(m: ManagedRegion.Markers, existing: Option<string>, first: seq<Field>, second: seq<Field>,
                            known: seq<string>)
    requires m.OneLineEach()
    ensures var b1, b2 := BackendBlock(first, known), BackendBlock(second, known);
            ManagedRegion.Render(m, Some(ManagedRegion.Render(m, existing, b1)), b2) == ManagedRegion.Render(m, existing, b2)
            <==> forall line <- BlockLines(first, known) :: !Contains(m.end, line)
  {
    ManagedRegion.Regeneration(m, existing, BackendBlock(first, known), BackendBlock(second, known));
    ContainsInLine(m.end, BlockLines(first, known));
  }

  /** The table as printed documents the keys exactly where every field can be shown. */
  lemma DocPageListsKeys(fields: seq<Field>, known: seq<string>)
    ensures DocKeys(Join(DocLines(Preamble(), fields, known), "\n")) == KeyList(Sort(fields, RowOrder(known)))
       <==> forall f <- fields :: TableShows(f)
  {
    hide TableShows, DocKeys, DocLines, PlainPreamble, Preamble;
    PreambleIsPlain();
    DocListsKeys(Preamble(), fields, known);
  }

  /** A field described by the END marker: its comment closes the region early, and the next render leaves the rest behind. */
  lemma EndMarkerInDescriptionStays()
    ensures var m := ManagedRegion.Markers(ManagedRegion.BEGIN_MARKER, ManagedRegion.END_MARKER);
            var f := Field("k", "K", "", true, "1", ManagedRegion.END_MARKER, "g", false, []);
            ManagedRegion.Render(m, Some(ManagedRegion.Render(m, None, BackendBlock([f], []))), BackendBlock([], []))
            != ManagedRegion.Render(m, None, BackendBlock([], []))
  {
    var m := ManagedRegion.Markers(ManagedRegion.BEGIN_MARKER, ManagedRegion.END_MARKER);
    var f := Field("k", "K", "", true, "1", ManagedRegion.END_MARKER, "g", false, []);
    ManagedRegion.EnvMarkersAreLines();
    DescribedBy(f, ManagedRegion.END_MARKER);
    hide ManagedRegion.Render, BackendBlock, BlockLines, Contains;
    EnvFileRegeneration(m, None, [f], [], []);
  }

  lemma DescribedBy(f: Field, text: string)
    requires f.description == text != "" && !f.vault
    ensures exists line <- BlockLines([f], []) :: Contains(text, line)
  {
    OneFieldLines(f, []);
    var line := "# " + text;
    assert OccursAt(text, line, 2);
    assert FieldLines(f)[0] == line && BlockLines([f], [])[1] == line;
    assert line in BlockLines([f], []);
  }
}
