/**
 The GitHub Actions output file (common/runtime/github_api.py): the writer
 `write_github_output` with its fresh-delimiter loop, and a reader of the
 `key=value` / `key<<DELIMITER` format it writes for.
 */
module GithubOutput {
  import opened Wrappers
  import opened Text
  import opened Releases

  /** One item of the `values` dictionary. */
  datatype Entry = Entry(key: string, value: string)

  type Bindings = map<string, string>

  function Bind(acc: Bindings, entries: seq<Entry>): Bindings
    decreases |entries|
  {
    if entries == [] then acc else Bind(acc[entries[0].key := entries[0].value], entries[1..])
  }

  predicate IsWordStart(c: char) {
    'a' <= c <= 'z' || 'A' <= c <= 'Z' || c == '_'
  }

  /** `[A-Za-z_][A-Za-z0-9_]*`, matching the whole key. */
  predicate ValidKey(key: string) {
    key != "" && IsWordStart(key[0]) && forall i :: 0 <= i < |key| ==> IsWordStart(key[i]) || '0' <= key[i] <= '9'
  }

  const CAPITALS := "ABCDEFGHIJKLMNOPQRSTUVWXYZ"
  const LETTERS := "abcdefghijklmnopqrstuvwxyz"

  lemma CapitalsAreListed(c: char)
    ensures 'A' <= c <= 'Z' <==> c in CAPITALS
  {
    if 'A' <= c <= 'Z' { assert CAPITALS[c as int - 'A' as int] == c; }
  }

  lemma LettersAreListed(c: char)
    ensures 'a' <= c <= 'z' <==> c in LETTERS
  {
    if 'a' <= c <= 'z' { assert LETTERS[c as int - 'a' as int] == c; }
  }

  /** A letter or an underscore. */
  predicate Starts(c: char) {
    c in CAPITALS || c in LETTERS || c == '_'
  }

  /** A key is a letter or an underscore, followed by letters, underscores and digits. */
  lemma KeyExactly(key: string)
    ensures ValidKey(key) <==> key != "" && Starts(key[0]) && forall c <- key :: Starts(c) || c in DIGITS
  {
    forall c: char ensures IsWordStart(c) <==> Starts(c)
                   ensures '0' <= c <= '9' <==> c in DIGITS
    {
      CapitalsAreListed(c);
      LettersAreListed(c);
      DigitsAreListed(c);
    }
    hide IsWordStart, Starts;
    if ValidKey(key) {
      forall c | c in key ensures Starts(c) || c in DIGITS {
        var i :| 0 <= i < |key| && key[i] == c;
      }
    }
    if key != "" && Starts(key[0]) && forall c <- key :: Starts(c) || c in DIGITS {
      assert forall i :: 0 <= i < |key| ==> key[i] in key;
    }
  }

  // ---- the reader ----

  function FindLine(line: string, lines: seq<string>): (k: nat)
    ensures k <= |lines| && (k < |lines| ==> lines[k] == line) && forall i :: 0 <= i < k ==> lines[i] != line
  {
    if lines == [] || lines[0] == line then 0 else 1 + FindLine(line, lines[1..])
  }

  /** A heredoc opens where "<<" comes before any "=". */
  predicate OpensHeredoc(line: string) {
    match (Find("<<", line), Find("=", line))
    case (Some(h), Some(e)) => h < e
    case (Some(_), None) => true
    case (None, _) => false
  }

  /** Reads the remaining lines of the file; later bindings of a key win. */
  function Read(lines: seq<string>, acc: Bindings): Option<Bindings>
    decreases |lines|
  {
    if lines == [] then Some(acc)
    else if lines[0] == "" then Read(lines[1..], acc)
    else if OpensHeredoc(lines[0]) then
      var (key, delimiter) := Partition(lines[0], "<<");
      var k := FindLine(delimiter, lines[1..]);
      if key == "" || delimiter == "" || k == |lines| - 1 then None
      else Read(lines[k + 2..], acc[key := Join(lines[1..k + 1], "\n")])
    else if Contains("=", lines[0]) && Partition(lines[0], "=").0 != "" then
      Read(lines[1..], acc[Partition(lines[0], "=").0 := Partition(lines[0], "=").1])
    else None
  }

  /** What a reader of the whole file makes of it. */
  function ReadFile(content: string): Option<Bindings> {
    Read(Split(content, '\n'), map[])
  }

  // ---- the writer ----

  predicate IsMultiline(value: string) {
    '\n' in value || '\r' in value
  }

  /** What one item adds to the file. */
  function EntryText(entry: Entry, delimiter: string): string {
    if IsMultiline(entry.value)
    then entry.key + "<<" + delimiter + "\n" + entry.value + "\n" + delimiter + "\n"
    else entry.key + "=" + entry.value + "\n"
  }

  function EntriesText(entries: seq<Entry>, delimiters: seq<string>): string
    requires |entries| == |delimiters|
  {
    if entries == [] then "" else EntryText(entries[0], delimiters[0]) + EntriesText(entries[1..], delimiters[1..])
  }

  /** An item takes the short form exactly if its value holds neither a newline nor a carriage return. */
  lemma ShortFormExactly(entry: Entry, delimiter: string)
    ensures EntryText(entry, delimiter) == entry.key + "=" + entry.value + "\n" <==> '\n' !in entry.value && '\r' !in entry.value
  {
    if IsMultiline(entry.value) {
      assert EntryText(entry, delimiter)[|entry.key|] == '<';
      assert (entry.key + "=" + entry.value + "\n")[|entry.key|] == '=';
    }
  }

  const DELIMITER_PREFIX := "FINANCE_REPORT_OUTPUT_"

  predicate IsHex(s: string) {
    forall i :: 0 <= i < |s| ==> IsHexDigit(s[i])
  }

  ghost predicate GoodDelimiter(delimiter: string, value: string) {
    && (exists hex :: IsHex(hex) && delimiter == DELIMITER_PREFIX + hex)
    && (IsMultiline(value) ==> delimiter !in SplitLines(value))
  }

  ghost predicate GoodDelimiters(entries: seq<Entry>, delimiters: seq<string>) {
    && |delimiters| == |entries|
    && forall i :: 0 <= i < |entries| ==> GoodDelimiter(delimiters[i], entries[i].value)
  }

  /** `uuid4().hex`: a stream of hexadecimal texts that never repeats. */
  class Uuid4 {
    const stream: nat -> string
    var drawn: nat

    ghost predicate Valid() {
      (forall n: nat :: IsHex(stream(n))) && (forall m: nat, n: nat :: m != n ==> stream(m) != stream(n))
    }

    constructor (stream: nat -> string)
      ensures this.stream == stream && drawn == 0
    {
      this.stream := stream;
      drawn := 0;
    }

    method Hex() returns (hex: string)
      modifies this
      ensures hex == stream(old(drawn)) && drawn == old(drawn) + 1
    {
      hex := stream(drawn);
      drawn := drawn + 1;
    }
  }

  lemma SubsetSize<T>(a: set<T>, b: set<T>)
    requires a <= b
    ensures |a| <= |b|
  {
    if a != {} {
      var x :| x in a;
      SubsetSize(a - {x}, b - {x});
    }
  }

  lemma {:induction false} SetOfSeqSize<T>(xs: seq<T>)
    ensures |set x | x in xs| <= |xs|
  {
    if xs != [] {
      SetOfSeqSize(xs[1..]);
      assert (set x | x in xs) == {xs[0]} + set x | x in xs[1..];
    }
  }

  lemma SamePrefix(p: string, a: string, b: string)
    ensures p + a == p + b <==> a == b
  {
    assert (p + a)[|p|..] == a && (p + b)[|p|..] == b;
  }

  /** The retry loop: at most one draw more than the value has lines. */
  method FreshDelimiter(uuid: Uuid4, value: string) returns (delimiter: string)
    requires uuid.Valid()
    modifies uuid
    ensures GoodDelimiter(delimiter, value)
    ensures uuid.drawn <= old(uuid.drawn) + |SplitLines(value)| + 1
  {
    var lines := SplitLines(value);
    var hex := uuid.Hex();
    delimiter := DELIMITER_PREFIX + hex;
    ghost var first := uuid.drawn - 1;
    ghost var tried := {};
    while delimiter in lines
      invariant uuid.drawn > first && hex == uuid.stream(uuid.drawn - 1) && delimiter == DELIMITER_PREFIX + hex
      invariant tried <= set line | line in lines
      invariant |tried| == uuid.drawn - 1 - first
      invariant forall d <- tried :: exists n: nat :: first <= n < uuid.drawn - 1 && d == DELIMITER_PREFIX + uuid.stream(n)
      decreases |set line | line in lines| - |tried|
    {
      forall n: nat | first <= n < uuid.drawn - 1 ensures delimiter != DELIMITER_PREFIX + uuid.stream(n) {
        SamePrefix(DELIMITER_PREFIX, hex, uuid.stream(n));
      }
      tried := tried + {delimiter};
      SubsetSize(tried, set line | line in lines);
      hex := uuid.Hex();
      delimiter := DELIMITER_PREFIX + hex;
    }
    SubsetSize(tried, set line | line in lines);
    SetOfSeqSize(lines);
    assert IsHex(hex);
  }

  datatype WriteResult = Written | InvalidKey(key: string)

  predicate AllKeysValid(values: seq<Entry>) {
    forall i :: 0 <= i < |values| ==> ValidKey(values[i].key)
  }

  /** A file whose last line is finished. */
  predicate EndsLine(content: string) {
    content == "" || content[|content| - 1] == '\n'
  }

  class OutputFile {
    var content: string

    constructor (content: string)
      ensures this.content == content
    {
      this.content := content;
    }

    /** `write_github_output`; `exposed` says whether GITHUB_OUTPUT names this file. */
    method WriteGithubOutput(values: seq<Entry>, exposed: bool, uuid: Uuid4) returns (r: WriteResult)
      requires uuid.Valid()
      modifies this, uuid
      ensures !exposed ==> r == Written && content == old(content)
      ensures r == Written <==> !exposed || AllKeysValid(values)
      ensures r.InvalidKey? ==>
                && content == old(content)
                && exists i :: 0 <= i < |values| && r.key == values[i].key && !ValidKey(r.key) && AllKeysValid(values[..i])
      ensures (forall entry <- values :: !IsMultiline(entry.value)) ==> uuid.drawn == old(uuid.drawn)
      ensures exposed && r == Written ==>
                && (exists delimiters :: GoodDelimiters(values, delimiters)
                      && content == old(content) + EntriesText(values, delimiters))
                && (EndsLine(old(content)) && ReadFile(old(content)).Some? ==>
                      ReadFile(content) == Some(Bind(ReadFile(old(content)).value, values)))
    {
      hide GoodDelimiter, ReadFile, ValidKey, IsMultiline;
      if !exposed {
        return Written;
      }
      for i := 0 to |values|
        invariant AllKeysValid(values[..i])
      {
        if !ValidKey(values[i].key) {
          return InvalidKey(values[i].key);
        }
      }
      assert values[..|values|] == values;
      ghost var delimiters: seq<string> := [];
      for i := 0 to |values|
        invariant GoodDelimiters(values[..i], delimiters)
        invariant content == old(content) + EntriesText(values[..i], delimiters)
        invariant (forall entry <- values[..i] :: !IsMultiline(entry.value)) ==> uuid.drawn == old(uuid.drawn)
      {
        var key, value := values[i].key, values[i].value;
        ghost var used := DELIMITER_PREFIX;
        if !IsMultiline(value) {
          content := content + (key + "=" + value + "\n");
          UnusedDelimiter(value);
        } else {
          var delimiter := FreshDelimiter(uuid, value);
          content := content + (key + "<<" + delimiter + "\n" + value + "\n" + delimiter + "\n");
          used := delimiter;
        }
        AppendStep(values, delimiters, i, used, old(content));
        delimiters := delimiters + [used];
      }
      if EndsLine(old(content)) && ReadFile(old(content)).Some? {
        AppendIsRead(old(content), values, delimiters);
      }
      return Written;
    }
  }

  /** A value of one line needs no delimiter, so any will do. */
  lemma UnusedDelimiter(value: string)
    requires !IsMultiline(value)
    ensures GoodDelimiter(DELIMITER_PREFIX, value)
  {
    assert IsHex("") && DELIMITER_PREFIX == DELIMITER_PREFIX + "";
  }

  /** The items up to and including item `i` are those before it and item `i`. */
  lemma AppendStep(values: seq<Entry>, delimiters: seq<string>, i: nat, delimiter: string, before: string)
    requires i < |values| && GoodDelimiters(values[..i], delimiters) && GoodDelimiter(delimiter, values[i].value)
    ensures values[..i + 1] == values[..i] + [values[i]]
    ensures GoodDelimiters(values[..i + 1], delimiters + [delimiter])
    ensures before + EntriesText(values[..i + 1], delimiters + [delimiter])
         == before + EntriesText(values[..i], delimiters) + EntryText(values[i], delimiter)
  {
    hide GoodDelimiter, EntryText;
    assert values[..i + 1] == values[..i] + [values[i]];
    TextSnoc(values[..i], delimiters, values[i], delimiter);
    Assoc(before, EntriesText(values[..i], delimiters), EntryText(values[i], delimiter));
  }

  lemma {:induction false} TextSnoc(entries: seq<Entry>, delimiters: seq<string>, entry: Entry, delimiter: string)
    requires |entries| == |delimiters|
    ensures EntriesText(entries + [entry], delimiters + [delimiter]) == EntriesText(entries, delimiters) + EntryText(entry, delimiter)
  {
    if entries == [] {
      assert [entry][1..] == [] && [delimiter][1..] == [];
      assert entries + [entry] == [entry] && delimiters + [delimiter] == [delimiter];
      assert EntryText(entry, delimiter) + "" == EntryText(entry, delimiter);
    } else {
      TextSnoc(entries[1..], delimiters[1..], entry, delimiter);
      assert (entries + [entry])[1..] == entries[1..] + [entry];
      assert (delimiters + [delimiter])[1..] == delimiters[1..] + [delimiter];
      Assoc(EntryText(entries[0], delimiters[0]), EntriesText(entries[1..], delimiters[1..]), EntryText(entry, delimiter));
    }
  }

  // ---- the reader undoes the writer ----

  function EntryLines(entry: Entry, delimiter: string): seq<string> {
    if IsMultiline(entry.value)
    then [entry.key + "<<" + delimiter] + Split(entry.value, '\n') + [delimiter]
    else [entry.key + "=" + entry.value]
  }

  lemma EntryIsLines(entry: Entry, delimiter: string)
    ensures EntryText(entry, delimiter) == Printed(EntryLines(entry, delimiter))
  {
    if IsMultiline(entry.value) {
      var parts := Split(entry.value, '\n');
      var open := [entry.key + "<<" + delimiter];
      PrintedIsJoin(parts);
      JoinSplit(entry.value, '\n');
      PrintedConcat(open + parts, [delimiter]);
      PrintedConcat(open, parts);
      assert Printed(open) == entry.key + "<<" + delimiter + "\n";
      assert Printed([delimiter]) == delimiter + "\n";
    }
  }

  lemma PrefixFacts()
    ensures forall i :: 0 <= i < |DELIMITER_PREFIX| ==>
              !IsLineBreak(DELIMITER_PREFIX[i]) && DELIMITER_PREFIX[i] != '=' && DELIMITER_PREFIX[i] != '<'
  {
  }

  lemma DelimiterFacts(delimiter: string, value: string)
    requires GoodDelimiter(delimiter, value)
    ensures delimiter != "" && (forall c <- delimiter :: !IsLineBreak(c)) && '\n' !in delimiter
    ensures IsMultiline(value) ==> delimiter !in Split(value, '\n')
  {
    PrefixFacts();
    var hex :| IsHex(hex) && delimiter == DELIMITER_PREFIX + hex;
    forall c | c in delimiter ensures !IsLineBreak(c) {
      var i :| 0 <= i < |delimiter| && delimiter[i] == c;
      if i < |DELIMITER_PREFIX| {
        assert c == DELIMITER_PREFIX[i];
      } else {
        assert c == hex[i - |DELIMITER_PREFIX|];
      }
    }
    if IsMultiline(value) && delimiter in Split(value, '\n') {
      SplitLinesIsFiner(value, delimiter);
    }
  }

  /** Nothing that starts with a character foreign to keys is found inside a key. */
  lemma FirstBehindKey(p: string, key: string)
    requires p != "" && p[0] !in key
    ensures Find(p, key + p) == Some(|key|)
  {
    assert OccursAt(p, key + p, |key|);
    forall j | 0 <= j < |key| ensures !OccursAt(p, key + p, j) {
      assert (key + p)[j] == key[j] && key[j] in key;
    }
    FoundAt(p, key + p, |key|);
  }

  lemma NotBefore(p: string, key: string, c: char, rest: string)
    requires p != "" && p[0] !in key && p[0] != c
    ensures var r := Find(p, key + [c] + rest); r.Some? ==> r.value > |key|
  {
    var s := key + [c] + rest;
    var r := Find(p, s);
    if r.Some? {
      assert s[r.value..r.value + |p|][0] == s[r.value];
    }
  }

  lemma KeyFacts(key: string)
    requires ValidKey(key)
    ensures '\n' !in key && '=' !in key && '<' !in key
  {
  }

  lemma PlainLine(key: string, value: string)
    requires ValidKey(key)
    ensures var line := key + "=" + value;
            !OpensHeredoc(line) && Contains("=", line) && Partition(line, "=") == (key, value)
  {
    KeyFacts(key);
    FirstBehindKey("=", key);
    PartitionFirst(key, "=", value);
    NotBefore("<<", key, '=', value);
  }

  lemma HeredocLine(key: string, delimiter: string)
    requires ValidKey(key)
    ensures var line := key + "<<" + delimiter;
            OpensHeredoc(line) && Partition(line, "<<") == (key, delimiter)
  {
    KeyFacts(key);
    FirstBehindKey("<<", key);
    PartitionFirst(key, "<<", delimiter);
    NotBefore("=", key, '<', "<" + delimiter);
    assert key + "<<" + delimiter == key + ['<'] + ("<" + delimiter);
  }

  lemma FindLineAt(line: string, before: seq<string>, after: seq<string>)
    requires line !in before
    ensures FindLine(line, before + [line] + after) == |before|
  {
    var lines := before + [line] + after;
    var k := FindLine(line, lines);
    assert lines[|before|] == line;
    assert forall i :: 0 <= i < |before| ==> lines[i] == before[i] && before[i] in before;
  }

  lemma ReadHeredoc(key: string, delimiter: string, parts: seq<string>, rest: seq<string>, acc: Bindings)
    requires ValidKey(key) && delimiter != "" && delimiter !in parts
    ensures Read([key + "<<" + delimiter] + parts + [delimiter] + rest, acc)
         == Read(rest, acc[key := Join(parts, "\n")])
  {
    var open := key + "<<" + delimiter;
    var lines := [open] + parts + [delimiter] + rest;
    HeredocLine(key, delimiter);
    assert lines[1..] == parts + [delimiter] + rest;
    FindLineAt(delimiter, parts, rest);
    assert lines[1..|parts| + 1] == parts;
    assert lines[|parts| + 2..] == rest;
  }

  lemma ReadEntry(entry: Entry, delimiter: string, rest: seq<string>, acc: Bindings)
    requires ValidKey(entry.key) && GoodDelimiter(delimiter, entry.value)
    ensures Read(EntryLines(entry, delimiter) + rest, acc) == Read(rest, acc[entry.key := entry.value])
  {
    DelimiterFacts(delimiter, entry.value);
    if IsMultiline(entry.value) {
      JoinSplit(entry.value, '\n');
      ReadHeredoc(entry.key, delimiter, Split(entry.value, '\n'), rest, acc);
    } else {
      var line := entry.key + "=" + entry.value;
      PlainLine(entry.key, entry.value);
      assert ([line] + rest)[1..] == rest;
    }
  }

  lemma EntryLinesArePlain(entry: Entry, delimiter: string)
    requires ValidKey(entry.key) && GoodDelimiter(delimiter, entry.value)
    ensures forall line <- EntryLines(entry, delimiter) :: '\n' !in line
  {
    DelimiterFacts(delimiter, entry.value);
    KeyFacts(entry.key);
    SplitParts(entry.value, '\n');
  }

  /** Reading on after the writer's text is reading on with its items bound. */
  lemma {:induction false} ReadEntries(entries: seq<Entry>, delimiters: seq<string>, acc: Bindings)
    requires AllKeysValid(entries) && GoodDelimiters(entries, delimiters)
    ensures Read(Split(EntriesText(entries, delimiters), '\n'), acc) == Some(Bind(acc, entries))
  {
    if entries != [] {
      var entry, delimiter := entries[0], delimiters[0];
      var tail := EntriesText(entries[1..], delimiters[1..]);
      EntryIsLines(entry, delimiter);
      EntryLinesArePlain(entry, delimiter);
      SplitPrinted(EntryLines(entry, delimiter), tail);
      ReadEntry(entry, delimiter, Split(tail, '\n'), acc);
      ReadEntries(entries[1..], delimiters[1..], acc[entry.key := entry.value]);
    }
  }

  /** A finished text is read to its end before anything appended to it. */
  lemma {:induction false} ReadPrefix(lines: seq<string>, more: seq<string>, acc: Bindings)
    requires Read(lines + [""], acc).Some?
    ensures Read(lines + more, acc) == Read(more, Read(lines + [""], acc).value)
    decreases |lines|, 1
  {
    if lines == [] {
      assert lines + more == more && lines + [""] == [""];
    } else {
      hide OpensHeredoc, Partition, Contains;
      var done, all := lines + [""], lines + more;
      assert done[0] == all[0] == lines[0];
      assert done[1..] == lines[1..] + [""] && all[1..] == lines[1..] + more;
      if lines[0] == "" {
        ReadPrefix(lines[1..], more, acc);
      } else if OpensHeredoc(lines[0]) {
        ReadPrefixHeredoc(lines, more, acc);
      } else {
        ReadPrefix(lines[1..], more, acc[Partition(lines[0], "=").0 := Partition(lines[0], "=").1]);
      }
    }
  }

  /** What a heredoc binds and where reading goes on; no result where it is not closed. */
  function Heredoc(lines: seq<string>): Option<(string, string, nat)>
    requires lines != []
  {
    var (key, delimiter) := Partition(lines[0], "<<");
    var k := FindLine(delimiter, lines[1..]);
    if key == "" || delimiter == "" || k == |lines| - 1 then None else Some((key, Join(lines[1..k + 1], "\n"), k + 2))
  }

  lemma HeredocStep(lines: seq<string>, acc: Bindings)
    requires lines != [] && lines[0] != "" && OpensHeredoc(lines[0])
    ensures match Heredoc(lines)
            case None => Read(lines, acc) == None
            case Some((key, value, next)) => 0 < next <= |lines| && Read(lines, acc) == Read(lines[next..], acc[key := value])
  {
    hide OpensHeredoc, Join, Partition;
  }

  /** A heredoc closed within a text is the same whatever follows. */
  lemma HeredocStays(lines: seq<string>, a: seq<string>, b: seq<string>)
    requires lines != [] && Heredoc(lines + a).Some? && Heredoc(lines + a).value.2 <= |lines|
    ensures Heredoc(lines + b) == Heredoc(lines + a)
  {
    hide Join, Partition;
    var delimiter := Partition(lines[0], "<<").1;
    assert (lines + a)[0] == (lines + b)[0] == lines[0];
    assert (lines + a)[1..] == lines[1..] + a && (lines + b)[1..] == lines[1..] + b;
    var k := FindLine(delimiter, lines[1..] + a);
    SameFind(delimiter, lines[1..], a, b, k);
    assert (lines + a)[1..k + 1] == lines[1..k + 1] && (lines + b)[1..k + 1] == lines[1..k + 1];
  }

  /** The blank end of a text closes no heredoc. */
  lemma HeredocEndsInside(lines: seq<string>)
    requires lines != [] && Heredoc(lines + [""]).Some?
    ensures Heredoc(lines + [""]).value.2 <= |lines|
  {
    hide Join, Partition;
    var all := lines + [""];
    var delimiter := Partition(all[0], "<<").1;
    var k := FindLine(delimiter, all[1..]);
    assert all[1..][k] == delimiter != "" && all[1..][|lines| - 1] == "";
  }

  lemma {:induction false} ReadPrefixHeredoc(lines: seq<string>, more: seq<string>, acc: Bindings)
    requires lines != [] && lines[0] != "" && OpensHeredoc(lines[0]) && Read(lines + [""], acc).Some?
    ensures Read(lines + more, acc) == Read(more, Read(lines + [""], acc).value)
    decreases |lines|, 0
  {
    hide OpensHeredoc, Read, Heredoc;
    var done, all := lines + [""], lines + more;
    assert done[0] == all[0] == lines[0];
    HeredocStep(done, acc);
    HeredocStep(all, acc);
    HeredocEndsInside(lines);
    HeredocStays(lines, [""], more);
    var (key, value, next) := Heredoc(done).value;
    assert done[next..] == lines[next..] + [""] && all[next..] == lines[next..] + more;
    ReadPrefix(lines[next..], more, acc[key := value]);
  }

  lemma SameFind(line: string, lines: seq<string>, a: seq<string>, b: seq<string>, k: nat)
    requires FindLine(line, lines + a) == k < |lines|
    ensures FindLine(line, lines + b) == k
  {
    assert forall i :: 0 <= i < |lines| ==> (lines + b)[i] == (lines + a)[i];
  }

  lemma FinishedText(content: string) returns (lines: seq<string>)
    requires EndsLine(content)
    ensures content == Printed(lines) && forall line <- lines :: '\n' !in line
  {
    if content == "" {
      lines := [];
    } else {
      var text := content[..|content| - 1];
      lines := Split(text, '\n');
      JoinSplit(text, '\n');
      SplitParts(text, '\n');
      PrintedIsJoin(lines);
      assert text + "\n" == content;
    }
  }

  /** Appending to a finished, readable file adds exactly the written items to what a reader sees. */
  lemma AppendIsRead(content: string, entries: seq<Entry>, delimiters: seq<string>)
    requires EndsLine(content) && ReadFile(content).Some?
    requires AllKeysValid(entries) && GoodDelimiters(entries, delimiters)
    ensures ReadFile(content + EntriesText(entries, delimiters)) == Some(Bind(ReadFile(content).value, entries))
  {
    var lines := FinishedText(content);
    var text := EntriesText(entries, delimiters);
    SplitPrinted(lines, "");
    assert content + "" == content;
    SplitPrinted(lines, text);
    ReadPrefix(lines, Split(text, '\n'), map[]);
    ReadEntries(entries, delimiters, ReadFile(content).value);
  }

  lemma {:induction false} BindIsOverride(acc: Bindings, entries: seq<Entry>)
    ensures Bind(acc, entries) == acc + Bind(map[], entries)
    decreases |entries|
  {
    if entries != [] {
      var e := entries[0];
      BindIsOverride(acc[e.key := e.value], entries[1..]);
      BindIsOverride(map[e.key := e.value], entries[1..]);
    }
  }

  predicate DistinctKeys(entries: seq<Entry>) {
    forall i, j :: 0 <= i < j < |entries| ==> entries[i].key != entries[j].key
  }

  /** A dictionary with exactly the given items. */
  predicate HoldsExactly(bindings: Bindings, entries: seq<Entry>) {
    && (forall k <- bindings :: exists i :: 0 <= i < |entries| && entries[i].key == k)
    && (forall i :: 0 <= i < |entries| ==> entries[i].key in bindings && bindings[entries[i].key] == entries[i].value)
  }

  lemma FirstKeyIsNew(entries: seq<Entry>, rest: Bindings)
    requires entries != [] && DistinctKeys(entries) && HoldsExactly(rest, entries[1..])
    ensures entries[0].key !in rest
  {
    assert forall i :: 0 <= i < |entries| - 1 ==> entries[1..][i].key == entries[i + 1].key;
  }

  lemma FirstIsBound(entries: seq<Entry>, rest: Bindings)
    requires entries != [] && DistinctKeys(entries) && HoldsExactly(rest, entries[1..])
    ensures HoldsExactly(map[entries[0].key := entries[0].value] + rest, entries)
  {
    FirstKeyIsNew(entries, rest);
    hide DistinctKeys;
    var e, tail := entries[0], entries[1..];
    var bindings := map[e.key := e.value] + rest;
    forall k | k in bindings ensures exists i :: 0 <= i < |entries| && entries[i].key == k {
      if k in rest {
        var i :| 0 <= i < |tail| && tail[i].key == k;
        assert entries[i + 1].key == k;
      } else {
        assert entries[0].key == k;
      }
    }
    forall i | 0 <= i < |entries| ensures entries[i].key in bindings && bindings[entries[i].key] == entries[i].value {
      if i > 0 { assert tail[i - 1] == entries[i]; }
    }
  }

  /** The dictionary a list of items with distinct keys stands for. */
  lemma {:induction false} BindIsDictionary(entries: seq<Entry>)
    requires DistinctKeys(entries)
    ensures HoldsExactly(Bind(map[], entries), entries)
  {
    if entries != [] {
      var e, rest := entries[0], entries[1..];
      assert DistinctKeys(rest);
      BindIsDictionary(rest);
      BindIsOverride(map[e.key := e.value], rest);
      FirstIsBound(entries, Bind(map[], rest));
      hide DistinctKeys, HoldsExactly;
      assert map[][e.key := e.value] == map[e.key := e.value];
    }
  }

  /**
   Round trip over two calls: a reader of the file recovers exactly the items
   written, those of the second call overriding those of the first.
   */
  lemma TwoWritesAreRead(first: seq<Entry>, second: seq<Entry>, d1: seq<string>, d2: seq<string>)
    requires AllKeysValid(first) && GoodDelimiters(first, d1)
    requires AllKeysValid(second) && GoodDelimiters(second, d2)
    ensures ReadFile(EntriesText(first, d1)) == Some(Bind(map[], first))
    ensures ReadFile(EntriesText(first, d1) + EntriesText(second, d2)) == Some(Bind(map[], first) + Bind(map[], second))
  {
    ReadEntries(first, d1, map[]);
    TextEndsLine(first, d1);
    AppendIsRead(EntriesText(first, d1), second, d2);
    BindIsOverride(Bind(map[], first), second);
  }

  lemma {:induction false} TextEndsLine(entries: seq<Entry>, delimiters: seq<string>)
    requires |entries| == |delimiters|
    ensures EndsLine(EntriesText(entries, delimiters))
  {
    if entries != [] { TextEndsLine(entries[1..], delimiters[1..]); }
  }
}
