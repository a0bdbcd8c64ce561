/**
 What the rows of the reference table and the entries of the manifest tell of a
 field (tools/generate_env_reference.py).
 */
module EnvRows {
  import opened Wrappers
  import opened Text
  import opened Sorting
  import opened Tables
  import opened EnvRender
  import opened EnvDocs

  // ---- the reference table ----

  /** A text that a cell can show: none, or one that a code span can hold. */
  predicate Showable(s: string) {
    s == "" || SpanText(s)
  }

  predicate ShowableField(f: Field) {
    SpanText(f.key) && Showable(f.default) && Showable(f.value) && PipesEscaped(f.group)
  }

  lemma EmptyIsNoSpan()
    ensures CodeSpan(Padded("")) == None
  {
    assert LStrip("  ") == "";
  }

  lemma ShownInCell(s: string)
    requires Showable(s)
    ensures s != "" ==> CodeSpan(Padded("`" + s + "`")) == Some(s)
    ensures s == "" ==> CodeSpan(Padded(s)) == None
  {
    EmptyIsNoSpan();
    if s != "" { SpanIsRead(s); }
  }

  lemma ShowableIsEscaped(s: string)
    requires Showable(s)
    ensures PipesEscaped(s) && PipesEscaped(Code(s))
  {
    CodeKeepsPipes(s);
  }

  lemma FieldCellsEscaped(f: Field)
    requires ShowableField(f)
    ensures forall cell <- FieldCells(f) :: PipesEscaped(cell)
  {
    ShowableIsEscaped(f.key);
    ShowableIsEscaped(f.default);
    ShowableIsEscaped(f.value);
    EscapePipesEscapes(f.description);
    assert PipesEscaped("") && PipesEscaped("yes");
    hide PipesEscaped, Code, EscapePipes, NewlinesToSpaces;
    var cells := FieldCells(f);
    assert forall cell :: cell in cells <==>
      cell == cells[0] || cell == cells[1] || cell == cells[2] || cell == cells[3] || cell == cells[4] || cell == cells[5];
  }

  /** The six cells of a field's row, as a reader of the row finds them. */
  lemma FieldRowTells(f: Field)
    requires ShowableField(f)
    ensures var cells := Cells(Row(FieldCells(f)));
            && |cells| == 6
            && CodeSpan(cells[0]) == Some(f.key)
            && CodeSpan(cells[1]) == (if f.default == "" then None else Some(f.default))
            && CodeSpan(cells[2]) == (if f.value == "" || f.value == f.default then None else Some(f.value))
            && cells[3] == (if f.vault then " yes " else "  ")
            && cells[4] == " " + f.group + " "
            && exists shown :: IsSpaced(f.description, shown) && cells[5] == " " + shown + " "
  {
    var cells := FieldCells(f);
    FieldCellsEscaped(f);
    RowCells(cells);
    PaddedAt(cells);
    ShownInCell(f.key);
    ShownInCell(f.default);
    ShownInCell(f.value);
    EmptyIsNoSpan();
    var shown := NewlinesToSpaces(EscapePipes(f.description));
    SpacedText(f.description);
    hide PipesEscaped, EscapePipes, NewlinesToSpaces, Cells, Row, CodeSpan, PaddedCells, SpanText, Join, Split, IsSpaced;
    assert cells[5] == shown;
  }

  /** The value a reader takes from a row: the example, or the default where there is no example. */
  function ValueRead(cells: seq<string>): string {
    if |cells| != 6 then ""
    else match CodeSpan(cells[2])
      case Some(example) => example
      case None => if CodeSpan(cells[1]).Some? then CodeSpan(cells[1]).value else ""
  }

  /** A row tells the value of its field exactly unless an empty value stands beside a default. */
  lemma ValueIsTold(f: Field)
    requires ShowableField(f)
    ensures ValueRead(Cells(Row(FieldCells(f)))) == f.value <==> f.value != "" || f.default == ""
  {
    FieldRowTells(f);
    hide Cells, Row, CodeSpan;
  }

  lemma AliasCellsEscaped(alias: string, f: Field)
    requires SpanText(alias) && ShowableField(f)
    ensures forall cell <- [Code(alias)] + AliasCells(f) :: PipesEscaped(cell)
  {
    ShowableIsEscaped(alias);
    ShowableIsEscaped(f.key);
    assert PipesEscaped("") && PipesEscaped("yes");
    assert PipesEscaped("Alias of " + Code(f.key) + ".") by {
      assert PipesEscaped("Alias of ") && PipesEscaped(".");
      EscapedBetween("Alias of ", Code(f.key), ".");
    }
    hide PipesEscaped, Code;
    var cells := [Code(alias)] + AliasCells(f);
    assert forall cell :: cell in cells <==>
      cell == cells[0] || cell == cells[1] || cell == cells[2] || cell == cells[3] || cell == cells[4] || cell == cells[5];
  }

  lemma EscapedBetween(a: string, s: string, b: string)
    requires PipesEscaped(a) && PipesEscaped(s) && PipesEscaped(b)
    ensures PipesEscaped(a + s + b)
  {
    var whole := a + s + b;
    forall i | 0 <= i < |whole| && whole[i] == '|' ensures i > 0 && whole[i - 1] == '\\' {
      if i < |a| {
        assert a[i] == '|';
      } else if i < |a| + |s| {
        assert s[i - |a|] == '|';
      } else {
        assert b[i - |a| - |s|] == '|';
      }
    }
  }

  /** An alias has a row of its own behind its field's, which names the field and shares its group and vault mark. */
  lemma AliasRowTells(f: Field, i: nat)
    requires i < |f.extraKeys| && SpanText(f.extraKeys[i]) && ShowableField(f)
    ensures |FieldRows(f)| == 1 + |f.extraKeys| && FieldRows(f)[0] == Row(FieldCells(f))
    ensures var cells := Cells(FieldRows(f)[1 + i]);
            && |cells| == 6
            && CodeSpan(cells[0]) == Some(f.extraKeys[i])
            && cells[1] == "  " && cells[2] == "  "
            && cells[3] == (if f.vault then " yes " else "  ")
            && cells[4] == " " + f.group + " "
            && cells[5] == " Alias of `" + f.key + "`. "
  {
    AliasRowAt(f.extraKeys, f, i);
    AliasCellsRead(f.extraKeys[i], f);
    hide PipesEscaped, Cells, Row, CodeSpan, SpanText, AliasRows, AliasCells, FieldCells, Code, Showable;
  }

  lemma AliasCellsRead(alias: string, f: Field)
    requires SpanText(alias) && ShowableField(f)
    ensures var cells := Cells(Row([Code(alias)] + AliasCells(f)));
            && |cells| == 6
            && CodeSpan(cells[0]) == Some(alias)
            && cells[1] == "  " && cells[2] == "  "
            && cells[3] == (if f.vault then " yes " else "  ")
            && cells[4] == " " + f.group + " "
            && cells[5] == " Alias of `" + f.key + "`. "
  {
    var cells := [Code(alias)] + AliasCells(f);
    AliasCellsEscaped(alias, f);
    RowCells(cells);
    PaddedAt(cells);
    ShownInCell(alias);
    AliasText(f.key);
    hide PipesEscaped, Cells, Row, CodeSpan, PaddedCells, SpanText;
  }

  lemma AliasText(key: string)
    ensures Padded("Alias of " + Code(key) + ".") == " Alias of `" + key + "`. "
  {
  }

  lemma {:induction false} AliasRowAt(aliases: seq<string>, f: Field, i: nat)
    requires i < |aliases|
    ensures |AliasRows(aliases, f)| == |aliases|
    ensures AliasRows(aliases, f)[i] == Row([Code(aliases[i])] + AliasCells(f))
  {
    hide Row, Code, VaultCell;
    assert [Code(aliases[0])] + AliasCells(f) == [Code(aliases[0]), "", "", VaultCell(f), f.group, "Alias of " + Code(f.key) + "."];
    if i > 0 {
      AliasRowAt(aliases[1..], f, i - 1);
    } else if |aliases| > 1 {
      AliasRowAt(aliases[1..], f, 0);
    }
  }

  // ---- the manifest ----

  /** An entry tells these facts of a field. */
  predicate Tells(entry: ManifestEntry, f: Field) {
    && entry.field == f.name && entry.env == f.key && entry.aliases == f.extraKeys && entry.group == f.group
    && entry.vault == f.vault && entry.hasDefault == f.hasDefault
  }

  /**
   The manifest has one entry for each field, which tells its facts, in the
   order of the keys; fields of one key keep their order.
   */
  lemma ManifestTells(fields: seq<Field>)
    ensures exists sorted: seq<Field> ::
              && IsSorted(sorted, fields, KeyLe)
              && |Manifest(fields)| == |sorted|
              && forall i :: 0 <= i < |sorted| ==> Tells(Manifest(fields)[i], sorted[i])
  {
    var sorted := Sort(fields, KeyLe);
    OrdersAreTotal([]);
    SortIsSorted(fields, KeyLe);
    EntriesTell(sorted);
    hide Sort, KeyLe, IsSorted;
  }

  lemma {:induction false} EntriesTell(fs: seq<Field>)
    ensures |Entries(fs)| == |fs| && forall i :: 0 <= i < |fs| ==> Tells(Entries(fs)[i], fs[i])
  {
    if |fs| > 0 {
      EntriesTell(fs[1..]);
      forall i | 0 <= i < |fs| ensures Tells(Entries(fs)[i], fs[i]) {
        assert i > 0 ==> fs[i] == fs[1..][i - 1];
      }
    }
  }

  // ---- the whole table ----

  function Concat(parts: seq<seq<string>>): seq<string> {
    if |parts| == 0 then [] else parts[0] + Concat(parts[1..])
  }

  lemma {:induction false} DocRowsAre(fs: seq<Field>) returns (parts: seq<seq<string>>)
    ensures |parts| == |fs| && DocRows(fs) == Concat(parts) && forall i :: 0 <= i < |fs| ==> parts[i] == FieldRows(fs[i])
  {
    hide FieldRows;
    parts := [];
    if |fs| > 0 {
      var rest := DocRowsAre(fs[1..]);
      parts := [FieldRows(fs[0])] + rest;
      assert parts[1..] == rest;
    }
  }

  /** A stable sort of the fields. */
  ghost predicate IsSorted(sorted: seq<Field>, fields: seq<Field>, le: (Field, Field) -> bool) {
    && multiset(sorted) == multiset(fields) && SameClasses(sorted, fields, le)
    && forall i, j :: 0 <= i < j < |sorted| ==> le(sorted[i], sorted[j])
  }

  lemma SortIsSorted(fields: seq<Field>, le: (Field, Field) -> bool)
    requires TotalPreorder(le)
    ensures IsSorted(Sort(fields, le), fields, le)
  {
    SortIsStable(fields, le);
  }

  /** The table is the first lines, the rows of each field in the order of groups and keys, and a final newline. */
  lemma TableIsLaidOut(preamble: seq<string>, fields: seq<Field>, known: seq<string>)
    ensures exists sorted: seq<Field>, parts ::
              && IsSorted(sorted, fields, RowOrder(known))
              && |parts| == |sorted| && (forall i :: 0 <= i < |sorted| ==> parts[i] == FieldRows(sorted[i]))
              && DocLines(preamble, fields, known) == preamble + Concat(parts) + [""]
  {
    var sorted := Sort(fields, RowOrder(known));
    OrdersAreTotal(known);
    SortIsSorted(fields, RowOrder(known));
    var parts := DocRowsAre(sorted);
    hide FieldRows, Sort, RowOrder, DocRows, Concat, IsSorted;
  }
}
