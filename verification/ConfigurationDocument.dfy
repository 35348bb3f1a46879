/** The parsed form of config.txt: lookup, update, canonical keys and serialization. */
module ConfigurationDocument {
  import opened Bytes
  import opened ConfigurationText

  datatype Entry = Entry(key: text, value: text)

  /** One source line; `setting` is present exactly when the line is an entry. */
  datatype Line = Line(original: text, setting: Option<Entry>)

  // ----- One line -----

  predicate Blank(c: byte) { c == SPACE || c == TAB }

  function FindBlank(s: text): (n: nat)
    ensures n <= |s|
  {
    if s == [] || Blank(s[0]) then 0 else 1 + FindBlank(s[1..])
  }

  /** The first equals sign or, when there is none, the first blank. */
  function Separator(content: text): (n: nat)
    ensures n <= |content|
  {
    var equals := Find(content, EQUALS);
    if equals < |content| then equals else FindBlank(content)
  }

  /** The setting that a line of text holds. */
  function Setting(line: text): Option<Entry> {
    var content := Trim(line);
    if content == [] || content[0] == HASH || content[0] == SEMICOLON then None
    else
      var n := Separator(content);
      if n == |content| || Trim(content[..n]) == [] then None
      else Some(Entry(Trim(content[..n]), Trim(content[n + 1..])))
  }

  function DropReturn(s: text): text {
    if s != [] && s[|s| - 1] == RETURN then s[..|s| - 1] else s
  }

  function ParseLine(raw: text): Line { Line(DropReturn(raw), Setting(DropReturn(raw))) }

  /** A key that survives being written and read again. */
  predicate WellFormedKey(key: text) {
    && key != [] && Tight(key) && EQUALS !in key && NoNewline(key)
    && key[0] != HASH && key[0] != SEMICOLON
  }

  function Assignment(key: text, value: text): text { key + [EQUALS] + value }

  lemma SettingIgnoresReturn(raw: text)
    ensures Setting(DropReturn(raw)) == Setting(raw)
  {
    if DropReturn(raw) != raw {
      assert raw == DropReturn(raw) + [RETURN];
      TrimIgnoresRight(DropReturn(raw), [RETURN]);
    }
  }

  lemma TrimKeeps(s: text)
    ensures forall c :: c !in s ==> c !in Trim(s)
    ensures Tight(Trim(s))
    ensures s != [] && !Space(s[0]) ==> Trim(s) != [] && Trim(s)[0] == s[0]
  {
    var l, r := TrimSplits(s);
    assert forall c :: c in Trim(s) ==> c in l + Trim(s) + r;
    var right := TrimRightSplits(s);
  }

  /** Whatever a line holds is in canonical form. */
  lemma SettingIsCanonical(line: text)
    requires NoNewline(line) && Setting(line).Some?
    ensures WellFormedKey(Setting(line).value.key)
    ensures Tight(Setting(line).value.value) && NoNewline(Setting(line).value.value)
  {
    var content := Trim(line);
    var n := Separator(content);
    TrimKeeps(line);
    TrimKeeps(content[..n]);
    TrimKeeps(content[n + 1..]);
    SeparatorFree(content);
    assert forall c :: c in content[n + 1..] ==> c in content;
    assert forall c :: c in content[..n] ==> c in content;
    assert n > 0 ==> content[..n][0] == content[0];
  }

  lemma SeparatorFree(content: text)
    ensures EQUALS !in content[..Separator(content)]
  {
    var e := Find(content, EQUALS);
    if e == |content| {
      assert content[..e] == content;
      assert forall c :: c in content[..Separator(content)] ==> c in content;
    }
  }

  lemma TightAssignment(key: text, value: text)
    requires WellFormedKey(key)
    requires value != [] ==> !Space(value[|value| - 1])
    ensures Tight(Assignment(key, value))
  {
    var content := Assignment(key, value);
    assert content[0] == key[0] && content[|key|] == EQUALS;
    assert value != [] ==> content[|content| - 1] == value[|value| - 1];
  }

  lemma TrimAssignment(key: text, value: text)
    requires WellFormedKey(key)
    ensures Trim(Assignment(key, value)) == Assignment(key, TrimRight(value))
    ensures Trim(TrimRight(value)) == Trim(value)
  {
    hide Trim, TrimRight, WellFormedKey, Tight;
    var right := TrimRightSplits(value);
    var kept := TrimRight(value);
    TightAssignment(key, kept);
    TrimTight(Assignment(key, kept));
    TrimIgnoresRight(Assignment(key, kept), right);
    assert Assignment(key, value) == Assignment(key, kept) + right;
    TrimIgnoresRight(kept, right);
  }

  /** A well-formed key and any value are read back, the value without surrounding white space. */
  lemma SettingReads(key: text, value: text)
    requires WellFormedKey(key)
    ensures Setting(Assignment(key, value)) == Some(Entry(key, Trim(value)))
  {
    hide Find, Trim, TrimRight, NoNewline;
    var kept := TrimRight(value);
    var content := Assignment(key, kept);
    TrimAssignment(key, value);
    FindIs(key, EQUALS, kept);
    assert content[..|key|] == key && content[|key| + 1..] == kept;
    TrimTight(key);
  }

  lemma UppercaseKeepsForm(key: text)
    ensures WellFormedKey(Uppercase(key)) <==> WellFormedKey(key)
  {
    hide Uppercase, Space, Upper;
    var raised := Uppercase(key);
    forall i | 0 <= i < |key|
      ensures raised[i] == EQUALS <==> key[i] == EQUALS
      ensures raised[i] == NEWLINE <==> key[i] == NEWLINE
    {
      UpperKeeps(key[i]);
    }
    if key != [] {
      UpperKeeps(key[0]);
      UpperKeeps(key[|key| - 1]);
    }
  }

  lemma UpperKeeps(c: byte)
    ensures Upper(c) == EQUALS <==> c == EQUALS
    ensures Upper(c) == NEWLINE <==> c == NEWLINE
    ensures Upper(c) == HASH <==> c == HASH
    ensures Upper(c) == SEMICOLON <==> c == SEMICOLON
    ensures Space(Upper(c)) <==> Space(c)
  {
  }

  /** A written key is read back exactly when it is well formed. */
  lemma KeySurvivesExactly(key: text, value: text)
    requires NoNewline(key) && NoNewline(value)
    ensures Setting(Assignment(Uppercase(key), value)) == Some(Entry(Uppercase(key), Trim(value))) <==>
            WellFormedKey(key)
  {
    UppercaseKeepsForm(key);
    var line := Assignment(Uppercase(key), value);
    assert NoNewline(Uppercase(key)) by {
      assert forall i :: 0 <= i < |key| ==> (Uppercase(key)[i] == NEWLINE <==> key[i] == NEWLINE);
    }
    assert NoNewline(line);
    if Setting(line).Some? { SettingIsCanonical(line); }
    if WellFormedKey(key) { SettingReads(Uppercase(key), value); }
  }

  // ----- The document as a list of lines -----

  function ParseLines(raw: seq<text>): (lines: seq<Line>)
    ensures |lines| == |raw|
    ensures forall i :: 0 <= i < |raw| ==> lines[i] == ParseLine(raw[i])
  {
    if raw == [] then [] else [ParseLine(raw[0])] + ParseLines(raw[1..])
  }

  function Parse(s: text): seq<Line> { ParseLines(Lines(s)) }

  function Originals(lines: seq<Line>): (r: seq<text>)
    ensures |r| == |lines| && forall i :: 0 <= i < |r| ==> r[i] == lines[i].original
  {
    if lines == [] then [] else [lines[0].original] + Originals(lines[1..])
  }

  function Serialize(lines: seq<Line>): text { Unlines(Originals(lines)) }

  function Listed(setting: Option<Entry>): seq<Entry> {
    match setting
    case Some(entry) => [entry]
    case None => []
  }

  function Entries(lines: seq<Line>): seq<Entry> {
    if lines == [] then [] else Listed(lines[0].setting) + Entries(lines[1..])
  }

  function Get(lines: seq<Line>, key: text): Option<text> {
    if lines == [] then None
    else if Matches(lines[0], key) then Some(lines[0].setting.value.value)
    else Get(lines[1..], key)
  }

  function Written(key: text, value: text): Line {
    Line(Assignment(Uppercase(key), value), Some(Entry(Uppercase(key), value)))
  }

  function Set(lines: seq<Line>, key: text, value: text): seq<Line> {
    if lines == [] then [Written(key, value)]
    else if Matches(lines[0], key) then [Written(key, value)] + lines[1..]
    else [lines[0]] + Set(lines[1..], key, value)
  }

  predicate Matches(line: Line, key: text) {
    line.setting.Some? && Same(line.setting.value.key, key)
  }

  /** Index of the first entry with the key, or the number of lines. */
  function Position(lines: seq<Line>, key: text): (n: nat)
    ensures n <= |lines| && (n < |lines| ==> Matches(lines[n], key))
    ensures forall i :: 0 <= i < n ==> !Matches(lines[i], key)
  {
    if lines == [] || Matches(lines[0], key) then 0 else 1 + Position(lines[1..], key)
  }

  /** An update rewrites the first matching line, or adds one at the end, and leaves all others alone. */
  lemma {:induction false} SetAtPosition(lines: seq<Line>, key: text, value: text)
    ensures var n := Position(lines, key);
            Set(lines, key, value) ==
            lines[..n] + [Written(key, value)] + (if n < |lines| then lines[n + 1..] else [])
  {
    hide Written, Matches;
    var n := Position(lines, key);
    if n > 0 {
      SetAtPosition(lines[1..], key, value);
      assert [lines[0]] + lines[1..][..n - 1] == lines[..n];
    }
  }

  function RaiseLine(line: Line): Line {
    if line.setting.None? then line else Written(line.setting.value.key, line.setting.value.value)
  }

  function UppercaseKeys(lines: seq<Line>): (r: seq<Line>)
    ensures |r| == |lines|
    ensures forall i :: 0 <= i < |r| ==> r[i] == RaiseLine(lines[i])
  {
    if lines == [] then [] else [RaiseLine(lines[0])] + UppercaseKeys(lines[1..])
  }

  // ----- The document as a list of settings -----

  function Lookup(entries: seq<Entry>, key: text): Option<text> {
    if entries == [] then None
    else if Same(entries[0].key, key) then Some(entries[0].value)
    else Lookup(entries[1..], key)
  }

  function Raised(entries: seq<Entry>): seq<Entry> {
    if entries == [] then [] else [Entry(Uppercase(entries[0].key), entries[0].value)] + Raised(entries[1..])
  }

  lemma {:induction false} LookupRaised(entries: seq<Entry>, query: text)
    ensures Lookup(Raised(entries), query) == Lookup(entries, query)
  {
    if entries != [] {
      UppercaseIsSame(entries[0].key);
      LookupRaised(entries[1..], query);
    }
  }

  lemma {:induction false} GetIsLookup(lines: seq<Line>, key: text)
    ensures Get(lines, key) == Lookup(Entries(lines), key)
  {
    if lines != [] {
      GetIsLookup(lines[1..], key);
      var rest := Entries(lines[1..]);
      if lines[0].setting.None? {
        assert Listed(lines[0].setting) + rest == rest;
      } else {
        assert (Listed(lines[0].setting) + rest)[1..] == rest;
      }
    }
  }

  /** Lines that hold what their texts say. */
  predicate Faithful(lines: seq<Line>) {
    forall i :: 0 <= i < |lines| ==> NoNewline(lines[i].original) && lines[i].setting == Setting(lines[i].original)
  }

  lemma {:induction false} ParsedReads(raw: seq<text>)
    requires forall i :: 0 <= i < |raw| ==> NoNewline(raw[i])
    ensures Faithful(ParseLines(raw))
  {
  }

  // ----- Namespaces -----

  const UNDERSCORE: byte := 95

  function Prefix(tag: text): text {
    if tag != [] && tag[|tag| - 1] != UNDERSCORE then tag + [UNDERSCORE] else tag
  }

  predicate Begins(s: text, prefix: text) { |s| >= |prefix| && Same(s[..|prefix|], prefix) }

  /** The entries below a prefix, without it. */
  function Below(entries: seq<Entry>, prefix: text): seq<Entry> {
    if entries == [] then []
    else
      var e := entries[0];
      (if Begins(e.key, prefix) then [Entry(e.key[|prefix|..], e.value)] else []) + Below(entries[1..], prefix)
  }

  lemma SameBelow(key: text, prefix: text, suffix: text)
    ensures Same(key, prefix + suffix) <==> Begins(key, prefix) && Same(key[|prefix|..], suffix)
  {
    FoldAppend(prefix, suffix);
    if |key| >= |prefix| {
      assert key == key[..|prefix|] + key[|prefix|..];
      FoldAppend(key[..|prefix|], key[|prefix|..]);
      var joined := Fold(key);
      assert joined[..|prefix|] == Fold(key[..|prefix|]) && joined[|prefix|..] == Fold(key[|prefix|..]);
      assert (Fold(prefix) + Fold(suffix))[..|prefix|] == Fold(prefix);
      assert (Fold(prefix) + Fold(suffix))[|prefix|..] == Fold(suffix);
    }
  }

  /** Listing a namespace and searching the list is the same as a direct lookup. */
  lemma {:induction false} BelowIsLookup(entries: seq<Entry>, prefix: text, key: text)
    ensures Lookup(Below(entries, prefix), key) == Lookup(entries, prefix + key)
  {
    if entries != [] {
      var e := entries[0];
      SameBelow(e.key, prefix, key);
      BelowIsLookup(entries[1..], prefix, key);
      var rest := Below(entries[1..], prefix);
      if Begins(e.key, prefix) {
        assert Below(entries, prefix)[1..] == rest;
      } else {
        assert Below(entries, prefix) == rest;
      }
    }
  }

  // ----- The classes -----

  class Document {
    var lines: seq<Line>

    /** Parses a complete file. */
    constructor (s: text)
      ensures lines == Parse(s)
    {
      hide Parse, Setting;
      lines := [];
      new;
      var start := 0;
      assert s[0..] == s;
      ParseNothing();
      assert s[|s|..] == [];
      while start < |s|
        invariant start <= |s|
        invariant Parse(s) == lines + Parse(s[start..])
        decreases |s| - start
      {
        var rest := s[start..];
        var length := Find(rest, NEWLINE);
        var original := rest[..length];
        if original != [] && original[|original| - 1] == RETURN { original := original[..|original| - 1]; }
        var setting := ReadSetting(original);
        ParseStep(rest);
        lines := lines + [Line(original, setting)];
        if length == |rest| {
          assert Parse(s) == lines;
          break;
        }
        start := start + length + 1;
        assert s[start..] == rest[length + 1..];
      }
      assert start == |s| ==> lines + Parse(s[start..]) == lines;
    }

    method Lookup(key: text) returns (value: Option<text>)
      ensures value == Get(lines, key)
    {
      for i := 0 to |lines|
        invariant Get(lines, key) == Get(lines[i..], key)
      {
        if lines[i].setting.Some? {
          var same := EqualCaseInsensitive(lines[i].setting.value.key, key);
          if same { return Some(lines[i].setting.value.value); }
        }
        assert lines[i..][1..] == lines[i + 1..];
      }
      return None;
    }

    method Update(key: text, value: text)
      modifies this
      ensures lines == Set(old(lines), key, value)
    {
      SetAtPosition(lines, key, value);
      var canonical := Uppercase(key);
      for i := 0 to |lines|
        invariant lines == old(lines)
        invariant forall k :: 0 <= k < i ==> !Matches(lines[k], key)
      {
        if lines[i].setting.Some? {
          var same := EqualCaseInsensitive(lines[i].setting.value.key, key);
          if same {
            lines := lines[..i] + [Line(canonical + [EQUALS] + value, Some(Entry(canonical, value)))] + lines[i + 1..];
            return;
          }
        }
      }
      lines := lines + [Line(canonical + [EQUALS] + value, Some(Entry(canonical, value)))];
    }

    method RaiseKeys()
      modifies this
      ensures lines == UppercaseKeys(old(lines))
    {
      for i := 0 to |lines|
        invariant |lines| == |old(lines)|
        invariant forall k :: 0 <= k < |lines| ==> lines[k] == if k < i then RaiseLine(old(lines[k])) else old(lines[k])
      {
        if lines[i].setting.Some? {
          var key := Uppercase(lines[i].setting.value.key);
          var value := lines[i].setting.value.value;
          lines := lines[i := Line(key + [EQUALS] + value, Some(Entry(key, value)))];
        }
      }
    }

    method ListEntries() returns (entries: seq<Entry>)
      ensures entries == Entries(lines)
    {
      hide Entries;
      entries := [];
      assert lines[0..] == lines;
      EntriesFrom(lines, |lines|);
      for i := 0 to |lines|
        invariant Entries(lines) == entries + Entries(lines[i..])
      {
        EntriesFrom(lines, i);
        if lines[i].setting.Some? { entries := entries + [lines[i].setting.value]; }
      }
    }

    /** Newlines go between the lines and after the last. */
    method Write() returns (r: text)
      ensures r == Serialize(lines)
    {
      r := [];
      for i := 0 to |lines|
        invariant Serialize(lines) == (if i == 0 then r else r + [NEWLINE]) + Serialize(lines[i..])
        invariant i == 0 ==> r == []
      {
        assert lines[i..][1..] == lines[i + 1..];
        assert Originals(lines[i..])[1..] == Originals(lines[i + 1..]);
        if i != 0 { r := r + [NEWLINE]; }
        r := r + lines[i].original;
      }
      if lines != [] { r := r + [NEWLINE]; }
    }
  }

  lemma EntriesFrom(lines: seq<Line>, i: nat)
    requires i <= |lines|
    ensures Entries(lines[i..]) == if i == |lines| then [] else Listed(lines[i].setting) + Entries(lines[i + 1..])
  {
    if i < |lines| { assert lines[i..][1..] == lines[i + 1..]; }
  }

  lemma ParseNothing()
    ensures Parse([]) == []
  {
  }

  lemma ParseStep(s: text)
    requires s != []
    ensures var n := Find(s, NEWLINE);
            Parse(s) == [ParseLine(s[..n])] + if n == |s| then [] else Parse(s[n + 1..])
  {
    hide ParseLine, Find;
    var n := Find(s, NEWLINE);
    LinesStep(s);
    ParseLinesStep(s[..n], if n == |s| then [] else Lines(s[n + 1..]));
  }

  lemma LinesStep(s: text)
    requires s != []
    ensures var n := Find(s, NEWLINE);
            Lines(s) == [s[..n]] + if n == |s| then [] else Lines(s[n + 1..])
  {
    if Find(s, NEWLINE) == |s| { assert s[..|s|] == s; }
  }

  lemma ParseLinesStep(line: text, rest: seq<text>)
    ensures ParseLines([line] + rest) == [ParseLine(line)] + ParseLines(rest)
  {
    assert ([line] + rest)[1..] == rest;
  }

  /** The separator search and the two trims of one line. */
  method ReadSetting(original: text) returns (setting: Option<Entry>)
    ensures setting == Setting(original)
  {
    var content := Trimmed(original);
    if content == [] || content[0] == HASH || content[0] == SEMICOLON { return None; }
    var separator := Find(content, EQUALS);
    if separator == |content| { separator := FindBlank(content); }
    if separator == |content| { return None; }
    var key := Trimmed(content[..separator]);
    var value := Trimmed(content[separator + 1..]);
    if key == [] { return None; }
    return Some(Entry(key, value));
  }

  lemma BelowFrom(entries: seq<Entry>, i: nat, prefix: text)
    requires i <= |entries|
    ensures Below(entries[i..], prefix) ==
            if i == |entries| then []
            else
              var e := entries[i];
              var own := if Begins(e.key, prefix) then [Entry(e.key[|prefix|..], e.value)] else [];
              own + Below(entries[i + 1..], prefix)
  {
    if i < |entries| { assert entries[i..][1..] == entries[i + 1..]; }
  }

  /** Access to the entries below a tag of one document. */
  class Namespace {
    const document: Document
    const prefix: text

    constructor (document: Document, tag: text)
      ensures this.document == document && prefix == Prefix(tag)
    {
      this.document := document;
      prefix := if tag != [] && tag[|tag| - 1] != UNDERSCORE then tag + [UNDERSCORE] else tag;
    }

    method Read(key: text) returns (value: Option<text>)
      ensures value == Get(document.lines, prefix + key)
    {
      value := document.Lookup(prefix + key);
    }

    method Update(key: text, value: text)
      modifies document
      ensures document.lines == Set(old(document.lines), prefix + key, value)
    {
      document.Update(prefix + key, value);
    }

    method ReadAll() returns (entries: seq<Entry>)
      ensures entries == Below(Entries(document.lines), prefix)
    {
      hide Below;
      var all := document.ListEntries();
      entries := [];
      assert all[0..] == all;
      BelowFrom(all, |all|, prefix);
      for i := 0 to |all|
        invariant Below(all, prefix) == entries + Below(all[i..], prefix)
      {
        BelowFrom(all, i, prefix);
        var key := all[i].key;
        if |key| >= |prefix| {
          var begins := EqualCaseInsensitive(key[..|prefix|], prefix);
          if begins { entries := entries + [Entry(key[|prefix|..], all[i].value)]; }
        }
      }
    }
  }
}
