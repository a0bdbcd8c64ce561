/**
 The renderers of the backend environment fields (tools/generate_env_reference.py):
 the `.env.example` block, the reference table and the required-env manifest.
 */
module EnvRender {
  import opened Wrappers
  import opened Text
  import opened Sorting
  import opened Ordering
  import opened Tables
  import opened Reading

  /** One environment field, as collected from the settings model. */
  datatype Field = Field(name: string, key: string, default: string, hasDefault: bool, value: string,
                         description: string, group: string, vault: bool, extraKeys: seq<string>)

  function IndexOf(group: string, groups: seq<string>): (i: nat)
    ensures i <= |groups| && (i < |groups| ==> groups[i] == group) && (i == |groups| ==> group !in groups)
  {
    if |groups| == 0 || groups[0] == group then 0 else 1 + IndexOf(group, groups[1..])
  }

  /** `_group_sort_key`, over any list of known groups. */
  function GroupSortKey(group: string, known: seq<string>): (nat, string) {
    var i := IndexOf(group, known);
    if i < |known| then (i, "") else (|known|, group)
  }

  /** The order of Python tuples. */
  predicate KeyPairLe(a: (nat, string), b: (nat, string)) {
    a.0 < b.0 || (a.0 == b.0 && StrLe(a.1, b.1))
  }

  /** The order of groups, for a list of known groups such as `GROUP_ORDER`. */
  function GroupOrder(known: seq<string>): (string, string) -> bool {
    (a: string, b: string) => KeyPairLe(GroupSortKey(a, known), GroupSortKey(b, known))
  }

  /** Distinct groups have distinct sort keys, so groups never interleave. */
  lemma GroupSortKeyInjective(a: string, b: string, known: seq<string>)
    ensures GroupSortKey(a, known) == GroupSortKey(b, known) <==> a == b
  {
  }

  /** The first place of a group in the list of known ones. */
  ghost predicate StandsAt(group: string, known: seq<string>, i: nat) {
    i < |known| && known[i] == group && group !in known[..i]
  }

  /** Known groups stand in the order of their list, before all others, which stand in the order of their names. */
  lemma GroupsStandInOrder(a: string, b: string, known: seq<string>)
    ensures GroupOrder(known)(a, b)
            <==> (exists i: nat, j: nat :: i <= j && StandsAt(a, known, i) && StandsAt(b, known, j))
                 || (a in known && b !in known)
                 || (a !in known && b !in known && StrLe(a, b))
  {
    IndexStands(a, known);
    IndexStands(b, known);
    assert StrLe("", "");
    hide IndexOf, StrLe, StandsAt;
    var i, j := IndexOf(a, known), IndexOf(b, known);
    forall k: nat | StandsAt(a, known, k) ensures k == i { OnePlace(a, known, i, k); }
    forall k: nat | StandsAt(b, known, k) ensures k == j { OnePlace(b, known, j, k); }
  }

  lemma OnePlace(group: string, known: seq<string>, i: nat, k: nat)
    requires StandsAt(group, known, k) && (group in known ==> StandsAt(group, known, i))
    ensures k == i
  {
    assert forall n :: 0 <= n < k ==> known[n] in known[..k];
    assert group in known ==> forall n :: 0 <= n < i ==> known[n] in known[..i];
  }

  lemma {:induction false} IndexStands(group: string, known: seq<string>)
    ensures var i := IndexOf(group, known); if group in known then StandsAt(group, known, i) else i == |known|
  {
    if |known| > 0 && known[0] != group {
      IndexStands(group, known[1..]);
      var i := IndexOf(group, known[1..]);
      if group in known { assert known[..i + 1] == [known[0]] + known[1..][..i]; }
    }
  }

  lemma KeyPairLeIsOrder(a: (nat, string), b: (nat, string), c: (nat, string))
    ensures KeyPairLe(a, b) || KeyPairLe(b, a)
    ensures KeyPairLe(a, b) && KeyPairLe(b, a) ==> a == b
    ensures KeyPairLe(a, b) && KeyPairLe(b, c) ==> KeyPairLe(a, c)
  {
    StrLeTotal(a.1, b.1);
    if StrLe(a.1, b.1) && StrLe(b.1, c.1) { StrLeTransitive(a.1, b.1, c.1); }
  }

  lemma GroupOrderIsTotal(known: seq<string>)
    ensures TotalOrder(GroupOrder(known))
  {
    var le := GroupOrder(known);
    forall a: string, b: string, c: string
      ensures le(a, b) || le(b, a)
      ensures le(a, b) && le(b, a) ==> a == b
      ensures le(a, b) && le(b, c) ==> le(a, c)
    {
      KeyPairLeIsOrder(GroupSortKey(a, known), GroupSortKey(b, known), GroupSortKey(c, known));
      GroupSortKeyInjective(a, b, known);
    }
  }

  function GroupOf(f: Field): string { f.group }

  predicate KeyLe(x: Field, y: Field) { StrLe(x.key, y.key) }

  /** Order by group, then by key: the order of the reference table. */
  function RowOrder(known: seq<string>): (Field, Field) -> bool {
    Nested(GroupOf, GroupOrder(known), KeyLe)
  }

  lemma OrdersAreTotal(known: seq<string>)
    ensures TotalPreorder(KeyLe) && TotalOrder(GroupOrder(known)) && TotalPreorder(RowOrder(known))
  {
    GroupOrderIsTotal(known);
    forall x: Field, y: Field ensures KeyLe(x, y) || KeyLe(y, x) { StrLeTotal(x.key, y.key); }
    forall x: Field, y: Field, z: Field | KeyLe(x, y) && KeyLe(y, z) ensures KeyLe(x, z) {
      StrLeTransitive(x.key, y.key, z.key);
    }
    NestedIsPreorder(GroupOf, GroupOrder(known), KeyLe);
  }

  /** The table sorts by the pair of group sort key and key. */
  lemma RowOrderIsLexicographic(x: Field, y: Field, known: seq<string>)
    ensures var kx, ky := GroupSortKey(x.group, known), GroupSortKey(y.group, known);
            RowOrder(known)(x, y) <==> if kx == ky then StrLe(x.key, y.key) else KeyPairLe(kx, ky)
  {
    GroupSortKeyInjective(x.group, y.group, known);
    assert GroupOf(x) == x.group && GroupOf(y) == y.group;
    assert KeyLe(x, y) == StrLe(x.key, y.key);
  }

  // ---- the .env.example block ----

  function Comment(f: Field): string {
    (if f.description != "" then f.description else f.key) + (if f.vault then " [VAULT]" else "")
  }

  function AliasLines(aliases: seq<string>, value: string): seq<string> {
    if |aliases| == 0 then [] else [aliases[0] + "=" + value] + AliasLines(aliases[1..], value)
  }

  function FieldLines(f: Field): seq<string> {
    ["# " + Comment(f)] + ([f.key + "=" + f.value] + AliasLines(f.extraKeys, f.value))
  }

  function FieldsLines(fs: seq<Field>): seq<string> {
    if |fs| == 0 then [] else FieldLines(fs[0]) + FieldsLines(fs[1..])
  }

  function Banner(group: string): string {
    "# === " + group + " ==="
  }

  function Section(group: string, members: seq<Field>): seq<string> {
    [Banner(group)] + FieldsLines(members) + [""]
  }

  function Sections(groups: seq<string>, fields: seq<Field>): seq<string> {
    if |groups| == 0 then []
    else Section(groups[0], Sort(InGroup(fields, GroupOf, groups[0]), KeyLe)) + Sections(groups[1..], fields)
  }

  function DropBlank(lines: seq<string>): seq<string> {
    if |lines| > 0 && lines[|lines| - 1] == "" then DropBlank(lines[..|lines| - 1]) else lines
  }

  function BlockLines(fields: seq<Field>, known: seq<string>): seq<string> {
    DropBlank(Sections(Sort(Groups(fields, GroupOf), GroupOrder(known)), fields))
  }

  function BackendBlock(fields: seq<Field>, known: seq<string>): string {
    Join(BlockLines(fields, known), "\n")
  }

  method AppendField(lines: seq<string>, f: Field) returns (longer: seq<string>)
    ensures longer == lines + FieldLines(f)
  {
    var comment := if f.description != "" then f.description else f.key;
    if f.vault {
      comment := comment + " [VAULT]";
    }
    assert comment == Comment(f);
    var added := ["# " + comment] + [f.key + "=" + f.value];
    Assoc(["# " + comment], [f.key + "=" + f.value], AliasLines(f.extraKeys, f.value));
    assert f.extraKeys[0..] == f.extraKeys;
    for i := 0 to |f.extraKeys|
      invariant added + AliasLines(f.extraKeys[i..], f.value) == FieldLines(f)
    {
      assert f.extraKeys[i..][1..] == f.extraKeys[i + 1..];
      Assoc(added, [f.extraKeys[i] + "=" + f.value], AliasLines(f.extraKeys[i + 1..], f.value));
      added := added + [f.extraKeys[i] + "=" + f.value];
    }
    assert f.extraKeys[|f.extraKeys|..] == [];
    longer := lines + added;
  }

  method AppendSection(lines: seq<string>, g: string, members: seq<Field>) returns (longer: seq<string>)
    ensures longer == lines + Section(g, members)
  {
    longer := lines + [Banner(g)];
    ghost var start := longer;
    for j := 0 to |members|
      invariant longer + FieldsLines(members[j..]) == start + FieldsLines(members)
    {
      assert members[j..][1..] == members[j + 1..];
      Assoc(longer, FieldLines(members[j]), FieldsLines(members[j + 1..]));
      longer := AppendField(longer, members[j]);
    }
    assert members[|members|..] == [];
    Assoc(lines, [Banner(g)], FieldsLines(members));
    Assoc(lines, [Banner(g)] + FieldsLines(members), [""]);
    longer := longer + [""];
  }

  /** `render_backend_block` */
  method RenderBackendBlock(fields: seq<Field>, known: seq<string>) returns (block: string)
    ensures block == BackendBlock(fields, known)
  {
    hide Section, Join, GroupOrder, Sort;
    var order, grouped := GroupBy(fields, GroupOf);
    var sorted := Sort(order, GroupOrder(known));
    SortedGroupsAreGroups(fields, known);
    var lines: seq<string> := [];
    for i := 0 to |sorted|
      invariant lines + Sections(sorted[i..], fields) == Sections(sorted, fields)
    {
      var g := sorted[i];
      assert g in sorted && sorted[i..][1..] == sorted[i + 1..];
      var members := Sort(grouped[g], KeyLe);
      Assoc(lines, Section(g, members), Sections(sorted[i + 1..], fields));
      lines := AppendSection(lines, g, members);
    }
    assert sorted[|sorted|..] == [] && lines + [] == lines;
    while |lines| > 0 && lines[|lines| - 1] == ""
      invariant DropBlank(lines) == BlockLines(fields, known)
    {
      lines := lines[..|lines| - 1];
    }
    return Join(lines, "\n");
  }

  lemma SortedGroupsAreGroups(fields: seq<Field>, known: seq<string>)
    ensures var sorted := Sort(Groups(fields, GroupOf), GroupOrder(known));
            && (forall g <- sorted :: g in Groups(fields, GroupOf) && exists f <- fields :: f.group == g)
            && (forall f <- fields :: f.group in sorted)
  {
    var group: Field -> string := GroupOf;
    hide GroupOrder, Sort, Groups;
    GroupOrderIsTotal(known);
    SortElements(Groups(fields, group), GroupOrder(known));
    GroupsFacts(fields, group);
    forall f | f in fields ensures f.group in Groups(fields, group) {
      assert group(f) == f.group;
    }
    forall g | g in Groups(fields, group) ensures exists f <- fields :: f.group == g {
      var f :| f in fields && group(f) == g;
    }
  }

  // ---- reading the block back ----

  type Binding = (string, string)

  /** How a line of an env file is read: comments and blank lines, of white space or none, bind nothing. */
  function LineBindings(line: string): seq<Binding> {
    if IsSilent(line) then [] else [Partition(line, "=")]
  }

  predicate IsSilent(line: string) {
    LStrip(line) == "" || LStrip(line)[0] == '#'
  }

  function EnvBindings(text: string): seq<Binding> {
    InText(LineBindings, text)
  }

  function AliasBindings(aliases: seq<string>, value: string): seq<Binding> {
    if |aliases| == 0 then [] else [(aliases[0], value)] + AliasBindings(aliases[1..], value)
  }

  /** What one field is meant to bind: its key, then its aliases, to the shown value. */
  function OwnBindings(f: Field): seq<Binding> {
    [(f.key, f.value)] + AliasBindings(f.extraKeys, f.value)
  }

  function FieldBindings(fs: seq<Field>): seq<Binding> {
    if |fs| == 0 then [] else OwnBindings(fs[0]) + FieldBindings(fs[1..])
  }

  /** The field as the first lines of its assignments show it. */
  function Shown(f: Field): Field {
    f.(value := HeadLine(f.value))
  }

  function FirstBindings(fs: seq<Field>): seq<Binding> {
    if |fs| == 0 then [] else OwnBindings(Shown(fs[0])) + FirstBindings(fs[1..])
  }

  /** A key that can be read in front of "=". */
  predicate ReadableKey(key: string) {
    '=' !in key && '\n' !in key && (LStrip(key) == "" || LStrip(key)[0] != '#')
  }

  predicate ReadableKeys(f: Field) {
    ReadableKey(f.key) && forall i :: 0 <= i < |f.extraKeys| ==> ReadableKey(f.extraKeys[i])
  }

  /** Neither the comment nor the value nor the group of a field has a further line that binds anything. */
  predicate QuietField(f: Field) {
    Quiet(LineBindings, Comment(f)) && Quiet(LineBindings, f.value) && Quiet(LineBindings, Banner(f.group))
  }

  lemma KeyEndsAtEquals(key: string, value: string)
    requires '=' !in key
    ensures Partition(key + "=" + value, "=") == (key, value)
  {
    assert OccursAt("=", key + "=", |key|);
    forall j | 0 <= j < |key| ensures !OccursAt("=", key + "=", j) {
      assert (key + "=")[j] == key[j] && key[j] in key;
    }
    FoundAt("=", key + "=", |key|);
    PartitionFirst(key, "=", value);
  }

  lemma KeySpeaks(key: string, value: string)
    requires ReadableKey(key)
    ensures !IsSilent(key + "=" + value)
  {
    var rest := "=" + value;
    assert LStrip(rest) == rest;
    hide LStrip;
    LStripConcat(key, rest);
    assert key + "=" + value == key + rest;
    if LStrip(key) != "" {
      assert (LStrip(key) + rest)[0] == LStrip(key)[0];
    }
  }

  lemma KeyLineBinds(key: string, value: string)
    requires ReadableKey(key)
    ensures LineBindings(key + "=" + value) == [(key, value)]
  {
    KeySpeaks(key, value);
    KeyEndsAtEquals(key, value);
    hide Partition, IsSilent;
  }

  /** An assignment is read in its first line, and is as quiet as its value. */
  lemma AssignmentIsRead(key: string, value: string)
    requires ReadableKey(key)
    ensures LineBindings(HeadLine(key + "=" + value)) == [(key, HeadLine(value))]
    ensures Quiet(LineBindings, key + "=" + value) <==> Quiet(LineBindings, value)
  {
    SplitPrefixed(key + "=", value);
    KeyLineBinds(key, HeadLine(value));
  }

  lemma {:induction false} AliasLinesAreRead(aliases: seq<string>, value: string)
    requires forall i :: 0 <= i < |aliases| ==> ReadableKey(aliases[i])
    ensures InFirstLines(LineBindings, AliasLines(aliases, value)) == AliasBindings(aliases, HeadLine(value))
    ensures Quiet(LineBindings, value) ==> AllQuiet(LineBindings, AliasLines(aliases, value))
  {
    hide LineBindings, HeadLine, Quiet, ReadableKey;
    if |aliases| > 0 {
      AssignmentIsRead(aliases[0], value);
      AliasLinesAreRead(aliases[1..], value);
      ConsFirstLines(LineBindings, aliases[0] + "=" + value, AliasLines(aliases[1..], value));
    }
  }

  lemma CommentIsRead(f: Field)
    ensures LineBindings(HeadLine("# " + Comment(f))) == []
    ensures Quiet(LineBindings, "# " + Comment(f)) <==> Quiet(LineBindings, Comment(f))
  {
    SplitPrefixed("# ", Comment(f));
  }

  lemma FieldIsRead(f: Field)
    requires ReadableKeys(f)
    ensures InFirstLines(LineBindings, FieldLines(f)) == OwnBindings(Shown(f))
    ensures AllQuiet(LineBindings, FieldLines(f)) <==> Quiet(LineBindings, Comment(f)) && Quiet(LineBindings, f.value)
  {
    hide LineBindings, HeadLine, Quiet, Comment, ReadableKey;
    var comment, line, aliases := "# " + Comment(f), f.key + "=" + f.value, AliasLines(f.extraKeys, f.value);
    CommentIsRead(f);
    AssignmentIsRead(f.key, f.value);
    AliasLinesAreRead(f.extraKeys, f.value);
    ConsFirstLines(LineBindings, line, aliases);
    ConsFirstLines(LineBindings, comment, [line] + aliases);
    assert FieldLines(f)[0] == comment && FieldLines(f)[1] == line;
    assert forall text :: text in FieldLines(f) <==> text == comment || text == line || text in aliases;
  }

  lemma {:induction false} FieldsAreRead(fs: seq<Field>)
    requires forall f <- fs :: ReadableKeys(f)
    ensures InFirstLines(LineBindings, FieldsLines(fs)) == FirstBindings(fs)
    ensures AllQuiet(LineBindings, FieldsLines(fs))
       <==> forall f <- fs :: Quiet(LineBindings, Comment(f)) && Quiet(LineBindings, f.value)
  {
    hide LineBindings, Quiet, Comment, ReadableKeys, OwnBindings, Shown, FieldLines;
    if |fs| > 0 {
      assert fs[0] in fs;
      FieldIsRead(fs[0]);
      FieldsAreRead(fs[1..]);
      FirstLinesConcat(LineBindings, FieldLines(fs[0]), FieldsLines(fs[1..]));
      assert fs == [fs[0]] + fs[1..];
      assert FieldsLines(fs) == FieldLines(fs[0]) + FieldsLines(fs[1..]);
    }
  }

  lemma BannerIsRead(group: string)
    ensures LineBindings(HeadLine(Banner(group))) == []
    ensures LineBindings(HeadLine("")) == [] && Quiet(LineBindings, "")
  {
    SplitPrefixed("# === ", group + " ===");
    assert Banner(group) == "# === " + (group + " ===");
    assert Split("", '\n')[1..] == [];
  }

  lemma SectionIsRead(group: string, members: seq<Field>)
    requires forall f <- members :: ReadableKeys(f)
    ensures InFirstLines(LineBindings, Section(group, members)) == FirstBindings(members)
    ensures AllQuiet(LineBindings, Section(group, members))
       <==> Quiet(LineBindings, Banner(group))
            && forall f <- members :: Quiet(LineBindings, Comment(f)) && Quiet(LineBindings, f.value)
  {
    hide LineBindings, Quiet, Comment, ReadableKeys, HeadLine;
    var banner, lines := [Banner(group)], FieldsLines(members);
    FieldsAreRead(members);
    BannerIsRead(group);
    FirstLinesConcat(LineBindings, banner + lines, [""]);
    FirstLinesConcat(LineBindings, banner, lines);
    OneText(LineBindings, Banner(group));
    OneText(LineBindings, "");
    assert banner[0] == Banner(group) && [""][0] == "";
    assert forall text :: text in Section(group, members) <==> text == Banner(group) || text in lines || text == "";
  }

  lemma {:induction false} SectionsAreRead(groups: seq<string>, fields: seq<Field>)
    requires TotalPreorder(KeyLe) && forall f <- fields :: ReadableKeys(f)
    ensures InFirstLines(LineBindings, Sections(groups, fields)) == FirstBindings(Flatten(groups, fields, GroupOf, KeyLe))
    ensures AllQuiet(LineBindings, Sections(groups, fields))
       <==> (forall g <- groups :: Quiet(LineBindings, Banner(g)))
            && forall f <- Flatten(groups, fields, GroupOf, KeyLe) :: Quiet(LineBindings, Comment(f)) && Quiet(LineBindings, f.value)
  {
    hide LineBindings, Quiet, Comment, ReadableKeys, OwnBindings, Shown, Section, Banner;
    if |groups| > 0 {
      var members := Sort(InGroup(fields, GroupOf, groups[0]), KeyLe);
      var rest := Flatten(groups[1..], fields, GroupOf, KeyLe);
      BlockGroup(fields, GroupOf, KeyLe, groups[0]);
      SectionIsRead(groups[0], members);
      SectionsAreRead(groups[1..], fields);
      FirstLinesConcat(LineBindings, Section(groups[0], members), Sections(groups[1..], fields));
      FirstBindingsConcat(members, rest);
      assert groups == [groups[0]] + groups[1..];
      assert Sections(groups, fields) == Section(groups[0], members) + Sections(groups[1..], fields);
      assert Flatten(groups, fields, GroupOf, KeyLe) == members + rest;
    }
  }

  lemma {:induction false} FirstBindingsConcat(a: seq<Field>, b: seq<Field>)
    ensures FirstBindings(a + b) == FirstBindings(a) + FirstBindings(b)
  {
    hide OwnBindings, Shown;
    if |a| == 0 {
      assert a + b == b;
    } else {
      FirstBindingsConcat(a[1..], b);
      assert (a + b)[1..] == a[1..] + b && (a + b)[0] == a[0];
      Assoc(OwnBindings(Shown(a[0])), FirstBindings(a[1..]), FirstBindings(b));
    }
  }

  lemma {:induction false} DropBlankIsRead(lines: seq<string>)
    ensures InFirstLines(LineBindings, DropBlank(lines)) == InFirstLines(LineBindings, lines)
    ensures AllQuiet(LineBindings, DropBlank(lines)) <==> AllQuiet(LineBindings, lines)
  {
    hide LineBindings, Quiet, HeadLine;
    if |lines| > 0 && lines[|lines| - 1] == "" {
      var front := lines[..|lines| - 1];
      DropBlankIsRead(front);
      assert lines == front + [""];
      FirstLinesConcat(LineBindings, front, [""]);
      OneText(LineBindings, "");
      BannerIsRead("");
    }
  }

  /** With readable keys, the first lines of the block bind the fields in the order of the reference table. */
  lemma BlockFirstLines(fields: seq<Field>, known: seq<string>)
    requires forall f <- fields :: ReadableKeys(f)
    ensures InFirstLines(LineBindings, BlockLines(fields, known)) == FirstBindings(Sort(fields, RowOrder(known)))
    ensures AllQuiet(LineBindings, BlockLines(fields, known)) <==> forall f <- fields :: QuietField(f)
  {
    hide LineBindings, Quiet, Comment, ReadableKeys, Banner, GroupOrder, Sections, Sort, FirstBindings, InFirstLines, Flatten,
         AllQuiet, Groups;
    var groups, rows := Sort(Groups(fields, GroupOf), GroupOrder(known)), Sort(fields, RowOrder(known));
    OrdersAreTotal(known);
    SectionsAreRead(groups, fields);
    DropBlankIsRead(Sections(groups, fields));
    GroupedIsSorted(fields, GroupOf, GroupOrder(known), KeyLe);
    SortedGroupsAreGroups(fields, known);
    SortElements(fields, RowOrder(known));
  }

  lemma BlockIsTexts(fields: seq<Field>, known: seq<string>)
    ensures EnvBindings(BackendBlock(fields, known)) == InTexts(LineBindings, BlockLines(fields, known))
  {
    JoinedTexts(LineBindings, BlockLines(fields, known));
  }

  lemma KeyHasNoEquals(line: string)
    ensures '=' !in Partition(line, "=").0
  {
    var key := Partition(line, "=").0;
    if '=' in key {
      var i :| 0 <= i < |key| && key[i] == '=';
      assert OccursAt("=", line, i);
    }
  }

  lemma KeyIsNoComment(key: string, rest: string)
    requires !IsSilent(key + rest)
    ensures LStrip(key) == "" || LStrip(key)[0] != '#'
  {
    LStripConcat(key, rest);
    if LStrip(key) != "" {
      assert (LStrip(key) + rest)[0] == LStrip(key)[0];
    }
  }

  lemma LineIsReadable(line: string)
    requires '\n' !in line
    ensures forall b <- LineBindings(line) :: ReadableKey(b.0) && '\n' !in b.1
  {
    var (key, value) := Partition(line, "=");
    KeyHasNoEquals(line);
    assert line == key + line[|key|..];
    if !IsSilent(line) { KeyIsNoComment(key, line[|key|..]); }
    hide LStrip, IsSilent;
  }

  /** Whatever is read has a readable key and a value of one line. */
  lemma ReadIsReadable(text: string, b: Binding)
    requires b in EnvBindings(text)
    ensures ReadableKey(b.0) && '\n' !in b.1
  {
    hide LineBindings, ReadableKey;
    var line := FoundInText(LineBindings, text, b);
    LineIsReadable(line);
  }

  lemma {:induction false} OwnInFields(fs: seq<Field>, f: Field, b: Binding)
    requires f in fs && b in OwnBindings(f)
    ensures b in FieldBindings(fs)
  {
    if f != fs[0] { OwnInFields(fs[1..], f, b); }
  }

  lemma {:induction false} AliasInOwn(aliases: seq<string>, value: string, i: nat)
    requires i < |aliases|
    ensures (aliases[i], value) in AliasBindings(aliases, value)
  {
    if i > 0 { AliasInOwn(aliases[1..], value, i - 1); }
  }

  /** A field whose bindings are all read has readable keys and a value of one line. */
  lemma ReadFieldIsReadable(text: string, fs: seq<Field>, f: Field)
    requires f in fs && EnvBindings(text) == FieldBindings(fs)
    ensures ReadableKeys(f) && '\n' !in f.value
  {
    hide EnvBindings, FieldBindings, ReadableKey;
    OwnInFields(fs, f, (f.key, f.value));
    ReadIsReadable(text, (f.key, f.value));
    forall i | 0 <= i < |f.extraKeys| ensures ReadableKey(f.extraKeys[i]) {
      AliasInOwn(f.extraKeys, f.value, i);
      OwnInFields(fs, f, (f.extraKeys[i], f.value));
      ReadIsReadable(text, (f.extraKeys[i], f.value));
    }
  }

  lemma {:induction false} FirstIsWhole(fs: seq<Field>)
    requires forall f <- fs :: '\n' !in f.value
    ensures FirstBindings(fs) == FieldBindings(fs)
  {
    if |fs| > 0 {
      assert fs[0] in fs;
      OneLine(fs[0].value);
      FirstIsWhole(fs[1..]);
    }
  }

  /** A field whose part of the block is read as it is meant. */
  predicate ReadsBack(f: Field) {
    && ReadableKeys(f) && '\n' !in f.value
    && Quiet(LineBindings, Comment(f)) && Quiet(LineBindings, Banner(f.group))
  }

  /**
   The block binds each key and alias to its value, in the order of the
   reference table, and nothing else, exactly when every key can be read, every
   value is one line, and neither a comment nor a group banner runs on into a
   line that is neither blank nor a comment.
   */
  lemma BlockIsReadBack(fields: seq<Field>, known: seq<string>)
    ensures EnvBindings(BackendBlock(fields, known)) == FieldBindings(Sort(fields, RowOrder(known)))
       <==> forall f <- fields :: ReadsBack(f)
  {
    hide LineBindings, Quiet, Comment, ReadableKeys, Banner, BackendBlock, EnvBindings, BlockLines;
    var block, rows := BackendBlock(fields, known), Sort(fields, RowOrder(known));
    OrdersAreTotal(known);
    SortElements(fields, RowOrder(known));
    if EnvBindings(block) == FieldBindings(rows) {
      forall f | f in fields ensures ReadableKeys(f) && '\n' !in f.value {
        ReadFieldIsReadable(block, rows, f);
      }
    }
    if forall f <- fields :: ReadableKeys(f) && '\n' !in f.value {
      BlockIsTexts(fields, known);
      BlockFirstLines(fields, known);
      FirstIsWhole(rows);
      QuietTexts(LineBindings, BlockLines(fields, known));
      forall f | f in fields ensures Quiet(LineBindings, f.value) {
        ValueIsQuiet(f.value);
      }
    }
  }

  lemma ValueIsQuiet(value: string)
    requires '\n' !in value
    ensures Quiet(LineBindings, value)
  {
    OneLine(value);
  }

  // ---- where it fails ----

  lemma TwoLinesAreNotQuiet(first: string, second: string)
    requires '\n' !in first && '\n' !in second && LineBindings(second) != []
    ensures !Quiet(LineBindings, first + "\n" + second)
  {
    SplitTwo(first, second);
    SplitPlain(first, '\n');
    SplitPlain(second, '\n');
    assert Split(first + "\n" + second, '\n')[1..] == [second];
    assert second in [second];
  }

  /** The block of a single field: its banner, its comment and its assignments. */
  lemma OneFieldLines(f: Field, known: seq<string>)
    ensures BlockLines([f], known) == [Banner(f.group)] + FieldLines(f)
  {
    var rest := [f][1..];
    assert |rest| == 0 && [f][..0] == [];
    assert Groups([f][..0], GroupOf) == [];
    assert Groups([f], GroupOf) == [f.group];
    assert InGroup([f][..0], GroupOf, f.group) == [];
    assert InGroup([f], GroupOf, f.group) == [f];
    OneSorted(f.group, GroupOrder(known));
    OneSorted(f, KeyLe);
    OneFieldSections(f);
    LastLineIsFull(f);
    NoBlankDropped([Banner(f.group)] + FieldLines(f));
  }

  lemma OneSorted<T>(x: T, le: (T, T) -> bool)
    ensures Sort([x], le) == [x]
  {
    assert Sort([x][1..], le) == [];
  }

  lemma OneFieldSections(f: Field)
    requires Sort(InGroup([f], GroupOf, f.group), KeyLe) == [f]
    ensures Sections([f.group], [f]) == [Banner(f.group)] + FieldLines(f) + [""]
  {
    assert [f.group][1..] == [] && [f][1..] == [];
    assert Sections([f.group][1..], [f]) == [] && FieldsLines([f][1..]) == [];
    assert FieldsLines([f]) == FieldLines(f);
  }

  lemma {:induction false} LastAliasIsFull(aliases: seq<string>, value: string)
    requires |aliases| > 0
    ensures |AliasLines(aliases, value)| > 0 && AliasLines(aliases, value)[|AliasLines(aliases, value)| - 1] != ""
  {
    if |aliases| > 1 { LastAliasIsFull(aliases[1..], value); }
  }

  lemma LastLineIsFull(f: Field)
    ensures FieldLines(f)[|FieldLines(f)| - 1] != ""
  {
    if |f.extraKeys| > 0 { LastAliasIsFull(f.extraKeys, f.value); }
  }

  lemma NoBlankDropped(lines: seq<string>)
    requires |lines| > 0 && lines[|lines| - 1] != ""
    ensures DropBlank(lines + [""]) == lines
  {
    assert (lines + [""])[..|lines|] == lines;
  }

  lemma OneFieldBlock(f: Field)
    requires !ReadsBack(f)
    ensures EnvBindings(BackendBlock([f], [])) != FieldBindings([f])
  {
    hide ReadsBack, EnvBindings, BackendBlock;
    BlockIsReadBack([f], []);
    assert f in [f] && Sort([f][1..], RowOrder([])) == [];
    assert Sort([f], RowOrder([])) == [f];
  }

  /** The second line of a description is printed bare, and binds. */
  lemma MultilineDescriptionLeaks()
    ensures var f := Field("k", "K", "", true, "1", "x\nB=1", "g", false, []);
            EnvBindings(BackendBlock([f], [])) != FieldBindings([f])
  {
    var f := Field("k", "K", "", true, "1", "x\nB=1", "g", false, []);
    TwoLinesAreNotQuiet("x", "B=1");
    assert Comment(f) == "x" + "\n" + "B=1";
    OneFieldBlock(f);
  }

  /** So is the second line of a value. */
  lemma MultilineValueLeaks()
    ensures var f := Field("k", "K", "", true, "a\nB=1", "d", "g", false, []);
            Quiet(LineBindings, Comment(f)) && EnvBindings(BackendBlock([f], [])) != FieldBindings([f])
  {
    var f := Field("k", "K", "", true, "a\nB=1", "d", "g", false, []);
    assert f.value[1] == '\n';
    OneLine("d");
    OneFieldBlock(f);
  }

  lemma TwoLineBanner()
    ensures !Quiet(LineBindings, Banner("g\nB=1"))
  {
    assert "B=1 ==="[0] == 'B';
    assert LineBindings("B=1 ===") != [];
    hide LineBindings, Quiet;
    TwoLinesAreNotQuiet("# === g", "B=1 ===");
    assert Banner("g\nB=1") == "# === g" + "\n" + "B=1 ===";
  }

  /** And the second line of a group banner. */
  lemma MultilineGroupLeaks()
    ensures var f := Field("k", "K", "", true, "1", "d", "g\nB=1", false, []);
            Quiet(LineBindings, Comment(f)) && EnvBindings(BackendBlock([f], [])) != FieldBindings([f])
  {
    var f := Field("k", "K", "", true, "1", "d", "g\nB=1", false, []);
    TwoLineBanner();
    hide Banner, LineBindings;
    OneLine("d");
    OneFieldBlock(f);
  }
}
