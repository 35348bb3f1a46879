/** What an updated configuration text reads as: for every text, key and value. */
module ConfigurationUpdate {
  import opened Bytes
  import opened ConfigurationText
  import opened ConfigurationDocument

  /** The text that replaces `s` when `key` is set to `value`. */
  function Updated(s: text, key: text, value: text): text {
    Serialize(UppercaseKeys(Set(Parse(s), key, value)))
  }

  // ----- Reading a serialized document -----

  /** The settings read from one line's text, which may itself contain newlines. */
  function HeldBy(original: text): seq<Entry> { Entries(Parse(original + [NEWLINE])) }

  function ReadAll(lines: seq<Line>): seq<Entry> {
    if lines == [] then [] else HeldBy(lines[0].original) + ReadAll(lines[1..])
  }

  lemma {:induction false} EntriesAppend(a: seq<text>, b: seq<text>)
    ensures Entries(ParseLines(a + b)) == Entries(ParseLines(a)) + Entries(ParseLines(b))
  {
    hide ParseLine, Listed;
    if a == [] {
      assert a + b == b;
    } else {
      assert (a + b)[1..] == a[1..] + b;
      EntriesAppend(a[1..], b);
      var head := Listed(ParseLine(a[0]).setting);
      var more, last := Entries(ParseLines(a[1..])), Entries(ParseLines(b));
      assert head + (more + last) == head + more + last;
    }
  }

  lemma ParseAppend(a: text, b: text)
    ensures Entries(Parse(a + [NEWLINE] + b)) == HeldBy(a) + Entries(Parse(b))
  {
    LinesAppend(a, b);
    EntriesAppend(Lines(a + [NEWLINE]), Lines(b));
  }

  /** Parsing a serialized document reads the texts of its lines one after the other. */
  lemma {:induction false} ParseSerialized(lines: seq<Line>)
    ensures Entries(Parse(Serialize(lines))) == ReadAll(lines)
  {
    hide HeldBy, Entries, Parse;
    if lines == [] {
      ReadNothing();
    } else {
      ParseSerialized(lines[1..]);
      ParseAppend(lines[0].original, Serialize(lines[1..]));
    }
  }

  lemma ReadNothing()
    ensures Entries(Parse([])) == []
  {
  }

  lemma ReadOne(original: text)
    requires NoNewline(original)
    ensures HeldBy(original) == Listed(Setting(original))
  {
    hide Setting;
    OneLine(original);
    var raw: seq<text> := [original];
    assert raw[1..] == [];
    SettingIgnoresReturn(original);
    assert Entries(ParseLines(raw)) == Listed(ParseLine(original).setting) + [];
  }

  lemma {:induction false} FaithfulReads(lines: seq<Line>)
    requires Faithful(lines)
    ensures ReadAll(lines) == Entries(lines)
  {
    hide HeldBy, Setting;
    if lines != [] {
      ReadOne(lines[0].original);
      FaithfulReads(lines[1..]);
    }
  }

  /** For any text at all, writing a parsed document and parsing it again keeps the settings. */
  lemma ParseSerializeParse(s: text)
    ensures Entries(Parse(Serialize(Parse(s)))) == Entries(Parse(s))
  {
    ParsedReads(Lines(s));
    ParseSerialized(Parse(s));
    FaithfulReads(Parse(s));
  }

  // ----- Reading an updated document -----

  /** The settings read from the line that an update writes. */
  function Held(key: text, value: text): seq<Entry> { HeldBy(Assignment(Uppercase(key), value)) }

  /** The entries with the first match, or else the end, replaced, and all other keys upper case. */
  function Replace(entries: seq<Entry>, key: text, held: seq<Entry>): seq<Entry> {
    if entries == [] then held
    else if Same(entries[0].key, key) then held + Raised(entries[1..])
    else [Entry(Uppercase(entries[0].key), entries[0].value)] + Replace(entries[1..], key, held)
  }

  lemma RaisedListed(setting: Option<Entry>, rest: seq<Entry>)
    ensures Raised(Listed(setting) + rest) == Raised(Listed(setting)) + Raised(rest)
  {
    var head := Listed(setting);
    if head == [] {
      assert head + rest == rest;
    } else {
      assert (head + rest)[1..] == rest && head[1..] == [];
    }
  }

  lemma UppercaseNoNewline(key: text)
    requires NoNewline(key)
    ensures NoNewline(Uppercase(key))
  {
    assert forall i :: 0 <= i < |key| ==> (Uppercase(key)[i] == NEWLINE <==> key[i] == NEWLINE);
  }

  lemma RaisedHasNoNewline(line: Line)
    requires NoNewline(line.original) && line.setting == Setting(line.original)
    ensures NoNewline(RaiseLine(line).original)
  {
    if line.setting.Some? {
      SettingIsCanonical(line.original);
      UppercaseNoNewline(line.setting.value.key);
    }
  }

  lemma RaisedLineReads(line: Line)
    requires NoNewline(line.original) && line.setting == Setting(line.original)
    ensures Listed(Setting(RaiseLine(line).original)) == Raised(Listed(line.setting))
  {
    if line.setting.Some? {
      var e := line.setting.value;
      SettingIsCanonical(line.original);
      UppercaseKeepsForm(e.key);
      SettingReads(Uppercase(e.key), e.value);
      TrimTight(e.value);
      assert Listed(line.setting)[1..] == [];
    }
  }

  lemma {:induction false} RaisedReads(lines: seq<Line>)
    requires Faithful(lines)
    ensures ReadAll(UppercaseKeys(lines)) == Raised(Entries(lines))
  {
    hide HeldBy, Setting, RaiseLine;
    if lines != [] {
      RaisedReads(lines[1..]);
      RaisedRead(lines[0]);
      RaisedListed(lines[0].setting, Entries(lines[1..]));
    }
  }

  lemma RaisedRead(line: Line)
    requires NoNewline(line.original) && line.setting == Setting(line.original)
    ensures HeldBy(RaiseLine(line).original) == Raised(Listed(line.setting))
  {
    RaisedHasNoNewline(line);
    RaisedLineReads(line);
    ReadOne(RaiseLine(line).original);
  }

  lemma {:induction false} UppercaseTwice(s: text)
    ensures Uppercase(Uppercase(s)) == Uppercase(s)
  {
    if s != [] { UppercaseTwice(s[1..]); }
  }

  lemma WrittenReads(key: text, value: text)
    ensures HeldBy(RaiseLine(Written(key, value)).original) == Held(key, value)
  {
    UppercaseTwice(key);
  }

  lemma ReplaceAfter(setting: Option<Entry>, rest: seq<Entry>, key: text, held: seq<Entry>)
    requires setting.Some? ==> !Same(setting.value.key, key)
    ensures Replace(Listed(setting) + rest, key, held) == Raised(Listed(setting)) + Replace(rest, key, held)
  {
    var head := Listed(setting);
    if head == [] {
      assert head + rest == rest;
    } else {
      assert (head + rest)[1..] == rest && head[1..] == [];
    }
  }

  lemma ReplaceHere(line: Line, rest: seq<Entry>, key: text, held: seq<Entry>)
    requires Matches(line, key)
    ensures Replace(Listed(line.setting) + rest, key, held) == held + Raised(rest)
  {
    assert (Listed(line.setting) + rest)[1..] == rest;
  }

  lemma ReadAllRaised(line: Line, rest: seq<Line>)
    ensures ReadAll(UppercaseKeys([line] + rest)) == HeldBy(RaiseLine(line).original) + ReadAll(UppercaseKeys(rest))
  {
    hide HeldBy, RaiseLine;
    assert ([line] + rest)[1..] == rest;
  }

  lemma {:induction false} UpdatedLinesRead(lines: seq<Line>, key: text, value: text)
    requires Faithful(lines)
    ensures ReadAll(UppercaseKeys(Set(lines, key, value))) == Replace(Entries(lines), key, Held(key, value))
  {
    hide HeldBy, ReadAll, UppercaseKeys, RaiseLine, Written, Replace, Setting, Held;
    WrittenReads(key, value);
    if lines == [] {
      ReadAllRaised(Written(key, value), []);
      assert Set(lines, key, value) == [Written(key, value)] + [];
      NothingRead(key, Held(key, value));
    } else if Matches(lines[0], key) {
      ReadAllRaised(Written(key, value), lines[1..]);
      RaisedReads(lines[1..]);
      ReplaceHere(lines[0], Entries(lines[1..]), key, Held(key, value));
    } else {
      UpdatedLinesRead(lines[1..], key, value);
      ReadAllRaised(lines[0], Set(lines[1..], key, value));
      RaisedRead(lines[0]);
      ReplaceAfter(lines[0].setting, Entries(lines[1..]), key, Held(key, value));
    }
  }

  lemma NothingRead(key: text, held: seq<Entry>)
    ensures held + ReadAll(UppercaseKeys([])) == Replace([], key, held)
  {
    assert held + [] == held;
  }

  /**
   The whole update, for every text, key and value: the settings read back are the old ones in order,
   all keys upper case, with the first match, or else the end, replaced by what the written line holds.
   */
  lemma UpdateReads(s: text, key: text, value: text)
    ensures Entries(Parse(Updated(s, key, value))) == Replace(Entries(Parse(s)), key, Held(key, value))
  {
    hide Entries, Parse, Held, Replace, ReadAll;
    assert Faithful(Parse(s)) by { ParsedIsFaithful(s); }
    ParseSerialized(UppercaseKeys(Set(Parse(s), key, value)));
    UpdatedLinesRead(Parse(s), key, value);
  }

  lemma ParsedIsFaithful(s: text)
    ensures Faithful(Parse(s))
  {
    ParsedReads(Lines(s));
  }

  // ----- Which settings survive -----

  /** A well-formed key, and a value whose newlines, if any, are all at its end. */
  predicate Survives(key: text, value: text) { WellFormedKey(key) && NoNewline(TrimRight(value)) }

  lemma {:induction false} BlankReadsNothing(lines: seq<text>)
    requires forall i :: 0 <= i < |lines| ==> AllSpace(lines[i])
    ensures Entries(ParseLines(lines)) == []
  {
    if lines != [] {
      BlankLine(lines[0]);
      SettingIgnoresReturn(lines[0]);
      BlankReadsNothing(lines[1..]);
    }
  }

  lemma BlankLine(s: text)
    requires AllSpace(s)
    ensures Setting(s) == None
  {
    TrimIs([], [], s);
    assert [] + [] + s == s;
  }

  lemma {:induction false} LinesOfBlank(s: text)
    requires AllSpace(s)
    ensures forall i :: 0 <= i < |Lines(s)| ==> AllSpace(Lines(s)[i])
    decreases |s|
  {
    if s != [] {
      var n := Find(s, NEWLINE);
      if n < |s| { LinesOfBlank(s[n + 1..]); }
    }
  }

  /** The first line of a written text, and the rest. */
  lemma ReadFirstLine(first: text, rest: text)
    requires NoNewline(first)
    ensures HeldBy(first + [NEWLINE] + rest) == Listed(Setting(first)) + HeldBy(rest)
  {
    hide Setting, Entries, Parse;
    ParseAppend(first, rest + [NEWLINE]);
    ReadOne(first);
    assert first + [NEWLINE] + rest + [NEWLINE] == first + [NEWLINE] + (rest + [NEWLINE]);
  }

  lemma SurvivorIsHeld(key: text, value: text)
    requires Survives(key, value)
    ensures Held(key, value) == [Entry(Uppercase(key), Trim(value))]
  {
    hide Setting, HeldBy, TrimRight, Trim;
    var raised := Uppercase(key);
    var kept := TrimRight(value);
    var right := TrimRightSplits(value);
    UppercaseKeepsForm(key);
    UppercaseNoNewline(key);
    var n := Find(right, NEWLINE);
    var blank := right[..n];
    TrimIgnoresRight(kept, blank);
    TrimIgnoresRight(kept, right);
    SettingReads(raised, kept + blank);
    var first := Assignment(raised, kept + blank);
    assert NoNewline(first);
    if n == |right| {
      assert first == Assignment(raised, value);
      ReadOne(first);
    } else {
      var rest := right[n + 1..];
      assert Assignment(raised, value) == first + [NEWLINE] + rest;
      ReadFirstLine(first, rest);
      BlankRead(rest);
    }
  }

  lemma BlankRead(s: text)
    requires AllSpace(s)
    ensures HeldBy(s) == []
  {
    LinesOfBlank(s + [NEWLINE]);
    BlankReadsNothing(Lines(s + [NEWLINE]));
  }

  lemma {:induction false} LookupReplaced(entries: seq<Entry>, key: text, e: Entry, query: text)
    requires Same(e.key, key)
    ensures Lookup(Replace(entries, key, [e]), query) ==
            if Same(key, query) then Some(e.value) else Lookup(entries, query)
  {
    if entries == [] {
      assert [e][1..] == [];
    } else if Same(entries[0].key, key) {
      assert ([e] + Raised(entries[1..]))[1..] == Raised(entries[1..]);
      LookupRaised(entries[1..], query);
    } else {
      UppercaseIsSame(entries[0].key);
      LookupReplaced(entries[1..], key, e, query);
    }
  }

  /** Rereading gives the new value for the key, in any case, and the old answer for every other key. */
  lemma UpdateThenRead(s: text, key: text, value: text, query: text)
    requires Survives(key, value)
    ensures Get(Parse(Updated(s, key, value)), query) ==
            if Same(key, query) then Some(Trim(value)) else Get(Parse(s), query)
  {
    hide Get, Parse, Updated, Held, Survives, Replace, Entries;
    UpdateReads(s, key, value);
    SurvivorIsHeld(key, value);
    GetIsLookup(Parse(Updated(s, key, value)), query);
    GetIsLookup(Parse(s), query);
    UppercaseIsSame(key);
    LookupReplaced(Entries(Parse(s)), key, Entry(Uppercase(key), Trim(value)), query);
  }

  // ----- Which do not -----

  lemma SameKeepsForm(a: text, b: text)
    requires Same(a, b) && WellFormedKey(a)
    ensures WellFormedKey(b)
  {
    SameCharacters(a, b);
    assert forall i :: 0 <= i < |b| ==> (Space(b[i]) <==> Space(a[i]));
    assert forall i :: 0 <= i < |b| ==> (b[i] == EQUALS <==> a[i] == EQUALS);
    assert forall i :: 0 <= i < |b| ==> (b[i] == NEWLINE <==> a[i] == NEWLINE);
  }

  /** A malformed key is never found in any text. */
  lemma {:induction false} MalformedIsNotFound(lines: seq<Line>, key: text)
    requires Faithful(lines) && !WellFormedKey(key)
    ensures Get(lines, key) == None
  {
    hide Setting, WellFormedKey;
    if lines != [] {
      MalformedIsNotFound(lines[1..], key);
      if lines[0].setting.Some? {
        SettingIsCanonical(lines[0].original);
        if Same(lines[0].setting.value.key, key) { SameKeepsForm(lines[0].setting.value.key, key); }
      }
    }
  }

  lemma {:induction false} LookupFirstHeld(entries: seq<Entry>, key: text, held: seq<Entry>)
    requires held != [] && Same(held[0].key, key)
    ensures Lookup(Replace(entries, key, held), key) == Some(held[0].value)
  {
    if entries != [] {
      UppercaseIsSame(entries[0].key);
      if !Same(entries[0].key, key) { LookupFirstHeld(entries[1..], key, held); }
    }
  }

  /** Trimming keeps what lies between two characters that are not white space. */
  lemma NewlineInTrim(value: text, i: nat, n: nat, j: nat)
    requires i < n < j < |value| && value[n] == NEWLINE && !Space(value[i]) && !Space(value[j])
    ensures NEWLINE in Trim(value)
  {
    hide Trim;
    var left, right := TrimSplits(value);
    var whole := Trim(value);
    assert forall k :: 0 <= k < |left| ==> value[k] == left[k];
    assert forall k :: |left| + |whole| <= k < |value| ==> value[k] == right[k - |left| - |whole|];
    assert whole[n - |left|] == value[n];
  }

  lemma NotBlank(value: text, i: nat)
    requires i < |value| && !Space(value[i])
    ensures Trim(value) != []
  {
    hide Trim;
    var left, right := TrimSplits(value);
    assert Trim(value) == [] ==> value == left + right;
    assert forall k :: 0 <= k < |left + right| ==> Space((left + right)[k]);
  }

  /** A value with a newline before its end is cut at the first newline, and reads differently. */
  lemma CutValueDiffers(value: text, n: nat)
    requires n == Find(value, NEWLINE) && !NoNewline(TrimRight(value))
    ensures n < |value| && Trim(value[..n]) != Trim(value)
  {
    hide Trim, TrimRight, Find;
    var kept := TrimRight(value);
    var end := TrimRightSplits(value);
    var at: nat :| at < |kept| && kept[at] == NEWLINE;
    var last := |kept| - 1;
    assert value[at] == NEWLINE && value[last] == kept[last];
    FindBefore(value, NEWLINE, at);
    var cut := value[..n];
    NotBlank(value, last);
    if AllSpace(cut) {
      TrimIs([], [], cut);
      assert [] + [] + cut == cut;
    } else {
      var i: nat :| i < n && !Space(cut[i]);
      NewlineInTrim(value, i, n, last);
      TrimKeeps(cut);
    }
  }

  lemma RaisedForm(key: text)
    requires WellFormedKey(key)
    ensures WellFormedKey(Uppercase(key)) && NoNewline(Uppercase(key))
  {
    UppercaseKeepsForm(key);
  }

  lemma OneLineAssignment(key: text, value: text)
    requires NoNewline(key) && NoNewline(value)
    ensures NoNewline(Assignment(key, value))
  {
  }

  /** The written line of a well-formed key whose value has a newline before its end. */
  lemma CutIsHeld(key: text, value: text)
    requires WellFormedKey(key) && !NoNewline(TrimRight(value))
    ensures var held := Held(key, value);
            held != [] && held[0].key == Uppercase(key) && held[0].value != Trim(value)
  {
    hide Setting, HeldBy, TrimRight, Trim, Find, WellFormedKey;
    var raised := Uppercase(key);
    var n := Find(value, NEWLINE);
    CutValueDiffers(value, n);
    RaisedForm(key);
    SettingReads(raised, value[..n]);
    var first := Assignment(raised, value[..n]);
    OneLineAssignment(raised, value[..n]);
    assert Assignment(raised, value) == first + [NEWLINE] + value[n + 1..];
    ReadFirstLine(first, value[n + 1..]);
  }

  /** Rereading an updated text gives the new value for the key, in any case, and the old answer for all others. */
  ghost predicate ReadsRight(s: text, key: text, value: text) {
    forall query :: Get(Parse(Updated(s, key, value)), query) ==
                    if Same(key, query) then Some(Trim(value)) else Get(Parse(s), query)
  }

  /**
   For any text, key and value, an update reads right if and only if the key is well formed and the value
   has no newline before its trailing white space. Otherwise it is the key itself that reads wrongly.
   */
  lemma UpdateIsRightExactly(s: text, key: text, value: text)
    ensures ReadsRight(s, key, value) <==> Survives(key, value)
    ensures Get(Parse(Updated(s, key, value)), key) == Some(Trim(value)) <==> Survives(key, value)
  {
    hide Get, Parse, Updated, Survives;
    KeyReadsExactly(s, key, value);
    if Survives(key, value) {
      forall query ensures Get(Parse(Updated(s, key, value)), query) ==
                           if Same(key, query) then Some(Trim(value)) else Get(Parse(s), query)
      {
        UpdateThenRead(s, key, value, query);
      }
    } else {
      assert Same(key, key);
    }
  }

  lemma KeyReadsExactly(s: text, key: text, value: text)
    ensures Get(Parse(Updated(s, key, value)), key) == Some(Trim(value)) <==> Survives(key, value)
  {
    hide Get, Parse, Updated, Held, WellFormedKey, Replace, Entries, TrimRight, Trim, NoNewline;
    var updated := Updated(s, key, value);
    if Survives(key, value) {
      UpdateThenRead(s, key, value, key);
    } else if !WellFormedKey(key) {
      ParsedIsFaithful(updated);
      MalformedIsNotFound(Parse(updated), key);
    } else {
      UpdateReads(s, key, value);
      CutIsHeld(key, value);
      UppercaseIsSame(key);
      GetIsLookup(Parse(updated), key);
      LookupFirstHeld(Entries(Parse(s)), key, Held(key, value));
    }
  }
}
