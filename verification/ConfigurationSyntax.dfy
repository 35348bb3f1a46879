/** The syntax of config.txt: which lines are settings, what they say, and how lines and keys are written. */
module ConfigurationSyntax {
  import opened Bytes
  import opened ConfigurationText
  import opened ConfigurationDocument

  // ----- Which lines are settings -----

  /** White space is tab, newline, vertical tab, form feed, carriage return and space. */
  predicate White(c: byte) { 9 <= c <= 13 || c == 32 }

  /** Trimming leaves a text alone exactly when it has no white space at either end. */
  lemma TrimmedExactly(s: text)
    ensures Trim(s) == s <==> s == [] || (!White(s[0]) && !White(s[|s| - 1]))
  {
    TrimKeeps(s);
    if Tight(s) { TrimTight(s); }
  }

  /** Neither an equals sign nor, between other characters, a space or a tab. */
  predicate Unseparated(content: text) { 61 !in content && 32 !in content && 9 !in content }

  lemma {:induction false} FindBlankExactly(s: text)
    ensures FindBlank(s) == |s| <==> 32 !in s && 9 !in s
    ensures FindBlank(s) < |s| ==> s[FindBlank(s)] in {32, 9}
  {
    if s != [] {
      FindBlankExactly(s[1..]);
      assert s == [s[0]] + s[1..];
    }
  }

  lemma FindExactly(s: text, c: byte)
    ensures Find(s, c) == |s| <==> c !in s
    ensures s != [] ==> (Find(s, c) == 0 <==> s[0] == c)
  {
    if Find(s, c) == |s| { assert s[..|s|] == s; }
  }

  /**
   A line is no setting exactly when it is blank, a comment starting with a hash or a semicolon, starts
   with the equals sign, or has no separator.
   */
  lemma NoSettingExactly(line: text)
    ensures Setting(line).None? <==> Trim(line) == [] || Trim(line)[0] in {35, 59, 61} || Unseparated(Trim(line))
  {
    hide Trim, Find, FindBlank;
    var content := Trim(line);
    TrimKeeps(line);
    FindBlankExactly(content);
    FindExactly(content, EQUALS);
    var n := Separator(content);
    if 0 < n {
      assert content[..n][0] == content[0];
      TrimKeeps(content[..n]);
    }
    TrimTight([]);
  }

  /** A key before an equals sign, with white space anywhere around key and value. */
  lemma EqualsLine(left: text, key: text, middle: text, value: text)
    requires WellFormedKey(key) && AllSpace(left) && AllSpace(middle)
    ensures Setting(left + key + middle + [EQUALS] + value) == Some(Entry(key, Trim(value)))
  {
    hide Find, Trim, TrimRight, NoNewline, AllSpace;
    var kept := TrimRight(value);
    var right := TrimRightSplits(value);
    var content := key + middle + [EQUALS] + kept;
    SpacesHoldNoEquals(middle);
    TightContent(key, middle, kept);
    TrimIs(left, content, right);
    assert left + key + middle + [EQUALS] + value == left + content + right;
    assert EQUALS !in key + middle;
    FindIs(key + middle, EQUALS, kept);
    assert content[..|key + middle|] == key + middle && content[|key + middle| + 1..] == kept;
    TrimIgnoresRight(key, middle);
    TrimTight(key);
    TrimIgnoresRight(kept, right);
  }

  lemma SpacesHoldNoEquals(s: text)
    requires AllSpace(s)
    ensures EQUALS !in s
  {
  }

  lemma TightContent(key: text, middle: text, kept: text)
    requires WellFormedKey(key) && (kept != [] ==> !Space(kept[|kept| - 1]))
    ensures var content := key + middle + [EQUALS] + kept; Tight(content) && content[0] == key[0]
  {
    var content := key + middle + [EQUALS] + kept;
    assert content[0] == key[0] && content[|key + middle|] == EQUALS;
    assert kept != [] ==> content[|content| - 1] == kept[|kept| - 1];
  }

  /** Without an equals sign the first space or tab separates the key from the value. */
  lemma BlankLine(left: text, key: text, blank: byte, value: text, right: text)
    requires AllSpace(left) && AllSpace(right)
    requires key != [] && Tight(key) && Unseparated(key) && key[0] != HASH && key[0] != SEMICOLON
    requires blank in {32, 9} && value != [] && !Space(value[|value| - 1]) && EQUALS !in value
    ensures Setting(left + key + [blank] + value + right) == Some(Entry(key, Trim(value)))
  {
    hide Find, Trim, AllSpace, FindBlank;
    var content := key + [blank] + value;
    assert content[0] == key[0] && content[|content| - 1] == value[|value| - 1];
    TrimIs(left, content, right);
    assert left + key + [blank] + value + right == left + content + right;
    FindExactly(content, EQUALS);
    FindBlankIs(key, blank, value);
    assert content[..|key|] == key && content[|key| + 1..] == value;
    TrimTight(key);
  }

  lemma {:induction false} FindBlankIs(a: text, blank: byte, b: text)
    requires blank in {32, 9} && 32 !in a && 9 !in a
    ensures FindBlank(a + [blank] + b) == |a|
  {
    if a != [] {
      assert (a + [blank] + b)[1..] == a[1..] + [blank] + b;
      FindBlankIs(a[1..], blank, b);
    }
  }

  // ----- Lines -----

  /** The lines of a file whose lines end with a carriage return and a newline where `ends` says so. */
  function Joined(lines: seq<text>, ends: seq<bool>): text
    requires |lines| == |ends|
  {
    if lines == [] then []
    else lines[0] + (if ends[0] then [RETURN] else []) + [NEWLINE] + Joined(lines[1..], ends[1..])
  }

  predicate Plain(lines: seq<text>) {
    forall i :: 0 <= i < |lines| ==> NoNewline(lines[i]) && (lines[i] != [] ==> lines[i][|lines[i]| - 1] != RETURN)
  }

  /** Reading and writing back keeps every line and its order, and only turns line ends into newlines. */
  lemma {:induction false} LinesAreKept(lines: seq<text>, ends: seq<bool>)
    requires |lines| == |ends| && Plain(lines)
    ensures Originals(Parse(Joined(lines, ends))) == lines
    ensures Serialize(Parse(Joined(lines, ends))) == Unlines(lines)
    decreases |lines|
  {
    hide Setting, Parse;
    if lines == [] {
      ParseNothing();
    } else {
      var end := if ends[0] then [RETURN] else [];
      var rest := Joined(lines[1..], ends[1..]);
      LinesAreKept(lines[1..], ends[1..]);
      FirstLineKept(lines[0], end, rest);
      assert [lines[0]] + lines[1..] == lines;
    }
  }

  lemma FirstLineKept(line: text, end: text, rest: text)
    requires NoNewline(line) && (line != [] ==> line[|line| - 1] != RETURN) && (end == [] || end == [RETURN])
    ensures Originals(Parse(line + end + [NEWLINE] + rest)) == [line] + Originals(Parse(rest))
  {
    hide Setting, Lines;
    FirstLine(line + end, rest);
    ParseLinesStep(line + end, Lines(rest));
    assert DropReturn(line + end) == line by {
      if end == [] { assert line + end == line; } else { assert (line + end)[..|line|] == line; }
    }
    var parsed := Parse(line + end + [NEWLINE] + rest);
    assert parsed[1..] == Parse(rest);
  }

  // ----- Case -----

  /** Texts are the same exactly when they differ at most in the case of ASCII letters. */
  lemma SameExactly(a: text, b: text)
    ensures Same(a, b) <==> |a| == |b| && forall i :: 0 <= i < |a| ==> SameLetter(a[i], b[i])
  {
    FoldAt(a);
    FoldAt(b);
    if |a| == |b| && forall i :: 0 <= i < |a| ==> SameLetter(a[i], b[i]) { assert Fold(a) == Fold(b); }
    if Same(a, b) {
      forall i | 0 <= i < |a| ensures SameLetter(a[i], b[i]) { assert Fold(a)[i] == Fold(b)[i]; }
    }
  }

  predicate SameLetter(c: byte, d: byte) {
    c == d || (65 <= c <= 90 && d == c + 32) || (65 <= d <= 90 && c == d + 32)
  }

  predicate NoLowerCase(s: text) { forall i :: 0 <= i < |s| ==> !(97 <= s[i] <= 122) }

  /** After an update every setting of the document, old or new, has a key without lower-case letters. */
  lemma {:induction false} KeysAreRaised(lines: seq<Line>, i: nat)
    requires i < |Entries(UppercaseKeys(lines))|
    ensures NoLowerCase(Entries(UppercaseKeys(lines))[i].key)
    decreases |lines|
  {
    hide Uppercase;
    if lines != [] {
      var raised := UppercaseKeys(lines);
      var own := Listed(raised[0].setting);
      assert raised[1..] == UppercaseKeys(lines[1..]);
      assert Entries(raised) == own + Entries(raised[1..]);
      if i >= |own| {
        KeysAreRaised(lines[1..], i - |own|);
      } else {
        UppercaseHasNoLower(lines[0].setting.value.key);
      }
    }
  }

  lemma UppercaseHasNoLower(s: text)
    ensures NoLowerCase(Uppercase(s))
  {
  }
}
