/** How the generated block of `.env.example` is laid out (tools/generate_env_reference.py). */
module EnvBlock {
  import opened Text
  import opened Sorting
  import opened EnvRender

  /** What a field's comment says: its description, or its key, and a mark if it belongs in the vault. */
  ghost predicate IsComment(comment: string, f: Field) {
    exists words, mark ::
      && words == (if f.description == "" then f.key else f.description)
      && mark == (if f.vault then " [VAULT]" else "")
      && comment == "# " + (words + mark)
  }

  /** A field's comment, its assignment, and one for each alias. */
  ghost predicate IsFieldText(lines: seq<string>, f: Field) {
    && |lines| == 2 + |f.extraKeys|
    && IsComment(lines[0], f)
    && lines[1] == f.key + "=" + f.value
    && forall i: nat :: i < |f.extraKeys| ==> lines[2 + i] == f.extraKeys[i] + "=" + f.value
  }

  /** Fields one right after the other. */
  ghost predicate AreFieldTexts(lines: seq<string>, fs: seq<Field>)
    decreases |fs|
  {
    if |fs| == 0 then |lines| == 0
    else exists k: nat :: k <= |lines| && IsFieldText(lines[..k], fs[0]) && AreFieldTexts(lines[k..], fs[1..])
  }

  /** A group's banner and its fields. */
  ghost predicate IsSectionText(lines: seq<string>, group: string, fs: seq<Field>) {
    |lines| > 0 && lines[0] == "# === " + group + " ===" && AreFieldTexts(lines[1..], fs)
  }

  /** One section for each group, of the fields of that group in the order of their keys. */
  ghost predicate AreSections(sections: seq<seq<string>>, groups: seq<string>, fields: seq<Field>) {
    && |sections| == |groups|
    && forall i :: 0 <= i < |groups| ==> IsSectionText(sections[i], groups[i], Sort(InGroup(fields, GroupOf, groups[i]), KeyLe))
  }

  /** Sections with a blank line between any two. */
  function Spaced(sections: seq<seq<string>>): seq<string> {
    if |sections| == 0 then []
    else if |sections| == 1 then sections[0]
    else sections[0] + [""] + Spaced(sections[1..])
  }

  lemma {:induction false} AliasLineAt(aliases: seq<string>, value: string, i: nat)
    requires i < |aliases|
    ensures |AliasLines(aliases, value)| == |aliases| && AliasLines(aliases, value)[i] == aliases[i] + "=" + value
  {
    if i > 0 {
      AliasLineAt(aliases[1..], value, i - 1);
    } else if |aliases| > 1 {
      AliasLineAt(aliases[1..], value, 0);
    }
  }

  lemma FieldLinesAre(f: Field)
    ensures IsFieldText(FieldLines(f), f)
  {
    var lines := FieldLines(f);
    if |f.extraKeys| > 0 { AliasLineAt(f.extraKeys, f.value, 0); }
    assert |lines| == 2 + |f.extraKeys|;
    forall i: nat | i < |f.extraKeys| ensures lines[2 + i] == f.extraKeys[i] + "=" + f.value {
      AliasLineAt(f.extraKeys, f.value, i);
    }
    assert lines[0] == "# " + Comment(f);
  }

  lemma {:induction false} FieldsLinesAre(fs: seq<Field>)
    ensures AreFieldTexts(FieldsLines(fs), fs)
  {
    hide IsFieldText, FieldLines;
    if |fs| > 0 {
      FieldLinesAre(fs[0]);
      FieldsLinesAre(fs[1..]);
      var k, lines := |FieldLines(fs[0])|, FieldsLines(fs);
      assert lines[..k] == FieldLines(fs[0]) && lines[k..] == FieldsLines(fs[1..]);
    }
  }

  lemma {:induction false} Ended(groups: seq<string>, fields: seq<Field>) returns (sections: seq<seq<string>>)
    ensures AreSections(sections, groups, fields)
    ensures Sections(groups, fields) == if |groups| == 0 then [] else Spaced(sections) + [""]
  {
    sections := [];
    if |groups| > 0 {
      var members := Sort(InGroup(fields, GroupOf, groups[0]), KeyLe);
      var first := [Banner(groups[0])] + FieldsLines(members);
      FieldsLinesAre(members);
      assert first[1..] == FieldsLines(members);
      var rest := Ended(groups[1..], fields);
      sections := [first] + rest;
      hide AreFieldTexts, FieldsLines, Sort, InGroup;
      assert sections[1..] == rest;
    }
  }

  lemma FieldTextEndsFull(lines: seq<string>, f: Field)
    requires IsFieldText(lines, f)
    ensures |lines| > 0 && lines[|lines| - 1] != ""
  {
    if |f.extraKeys| > 0 {
      assert lines[2 + (|f.extraKeys| - 1)] == f.extraKeys[|f.extraKeys| - 1] + "=" + f.value;
    }
  }

  lemma {:induction false} FieldTextsEndFull(lines: seq<string>, fs: seq<Field>)
    requires AreFieldTexts(lines, fs) && |lines| > 0
    ensures lines[|lines| - 1] != ""
    decreases |fs|
  {
    var k: nat :| k <= |lines| && IsFieldText(lines[..k], fs[0]) && AreFieldTexts(lines[k..], fs[1..]);
    FieldTextEndsFull(lines[..k], fs[0]);
    if k < |lines| { FieldTextsEndFull(lines[k..], fs[1..]); }
  }

  lemma SectionEndsFull(lines: seq<string>, group: string, fs: seq<Field>)
    requires IsSectionText(lines, group, fs)
    ensures |lines| > 0 && lines[|lines| - 1] != ""
  {
    if |lines| > 1 {
      FieldTextsEndFull(lines[1..], fs);
    } else {
      assert lines[0][0] == '#';
    }
  }

  lemma {:induction false} SpacedEndsFull(sections: seq<seq<string>>)
    requires |sections| > 0 && forall i :: 0 <= i < |sections| ==> |sections[i]| > 0 && sections[i][|sections[i]| - 1] != ""
    ensures var lines := Spaced(sections); |lines| > 0 && lines[|lines| - 1] != ""
  {
    if |sections| > 1 { SpacedEndsFull(sections[1..]); }
  }

  /**
   The block is the groups in order, each with its banner and its fields in the
   order of their keys, one blank line between groups and none at the end.
   */
  lemma BlockIsLaidOut(fields: seq<Field>, known: seq<string>)
    ensures exists sections ::
              AreSections(sections, Sort(Groups(fields, GroupOf), GroupOrder(known)), fields)
              && BlockLines(fields, known) == Spaced(sections)
  {
    var groups := Sort(Groups(fields, GroupOf), GroupOrder(known));
    var sections := Ended(groups, fields);
    SectionsEndFull(sections, groups, fields);
    hide Sections, Groups, Sort, AreSections, Spaced;
    if |groups| > 0 {
      NoBlankDropped(Spaced(sections));
    }
  }

  lemma SectionsEndFull(sections: seq<seq<string>>, groups: seq<string>, fields: seq<Field>)
    requires AreSections(sections, groups, fields)
    ensures var lines := Spaced(sections); if |groups| == 0 then |lines| == 0 else |lines| > 0 && lines[|lines| - 1] != ""
  {
    hide IsSectionText, Sort, InGroup;
    forall i | 0 <= i < |groups| ensures |sections[i]| > 0 && sections[i][|sections[i]| - 1] != "" {
      SectionEndsFull(sections[i], groups[i], Sort(InGroup(fields, GroupOf, groups[i]), KeyLe));
    }
    if |groups| > 0 { SpacedEndsFull(sections); }
  }
}
