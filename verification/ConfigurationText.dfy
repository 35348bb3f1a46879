/** Character-level helpers of the configuration document: trimming, ASCII case and lines. */
module ConfigurationText {
  import opened Bytes

  type text = seq<byte>

  const NEWLINE: byte := 10
  const RETURN: byte := 13
  const SPACE: byte := 32
  const TAB: byte := 9
  const EQUALS: byte := 61
  const HASH: byte := 35
  const SEMICOLON: byte := 59

  predicate Space(c: byte) {
    c == SPACE || c == TAB || c == RETURN || c == NEWLINE || c == 12 || c == 11
  }

  // ----- Trimming -----

  predicate AllSpace(s: text) {
    forall i :: 0 <= i < |s| ==> Space(s[i])
  }

  /** Neither end is white space. */
  predicate Tight(s: text) {
    s == [] || (!Space(s[0]) && !Space(s[|s| - 1]))
  }

  function TrimLeft(s: text): text {
    if s != [] && Space(s[0]) then TrimLeft(s[1..]) else s
  }

  function TrimRight(s: text): text {
    if s != [] && Space(s[|s| - 1]) then TrimRight(s[..|s| - 1]) else s
  }

  function Trim(s: text): text { TrimRight(TrimLeft(s)) }

  /** Trimming removes white space at both ends and all of it. */
  lemma {:induction false} TrimSplits(s: text) returns (left: text, right: text)
    ensures s == left + Trim(s) + right && AllSpace(left) && AllSpace(right) && Tight(Trim(s))
  {
    left := TrimLeftSplits(s);
    right := TrimRightSplits(TrimLeft(s));
  }

  lemma {:induction false} TrimLeftSplits(s: text) returns (left: text)
    ensures s == left + TrimLeft(s) && AllSpace(left)
    ensures TrimLeft(s) != [] ==> !Space(TrimLeft(s)[0])
  {
    if s != [] && Space(s[0]) {
      var more := TrimLeftSplits(s[1..]);
      left := [s[0]] + more;
    } else {
      left := [];
    }
  }

  lemma {:induction false} TrimRightSplits(s: text) returns (right: text)
    ensures s == TrimRight(s) + right && AllSpace(right)
    ensures TrimRight(s) != [] ==> !Space(TrimRight(s)[|TrimRight(s)| - 1])
  {
    if s != [] && Space(s[|s| - 1]) {
      var more := TrimRightSplits(s[..|s| - 1]);
      right := more + [s[|s| - 1]];
    } else {
      right := [];
    }
  }

  /** A tight text between white space is what trimming leaves. */
  lemma TrimIs(left: text, middle: text, right: text)
    requires AllSpace(left) && AllSpace(right) && Tight(middle)
    ensures Trim(left + middle + right) == middle
  {
    if middle == [] {
      assert AllSpace(left + middle + right);
      TrimLeftIs(left + middle + right, []);
      assert left + middle + right + [] == left + middle + right;
    } else {
      TrimLeftIs(left, middle + right);
      assert left + middle + right == left + (middle + right);
      TrimRightIs(middle, right);
    }
  }

  lemma {:induction false} TrimLeftIs(left: text, s: text)
    requires AllSpace(left) && (s != [] ==> !Space(s[0]))
    ensures TrimLeft(left + s) == s
  {
    if left == [] {
      assert left + s == s;
    } else {
      assert (left + s)[1..] == left[1..] + s;
      TrimLeftIs(left[1..], s);
    }
  }

  lemma {:induction false} TrimRightIs(s: text, right: text)
    requires AllSpace(right) && s != [] && !Space(s[|s| - 1])
    ensures TrimRight(s + right) == s
  {
    if right == [] {
      assert s + right == s;
    } else {
      assert (s + right)[..|s + right| - 1] == s + right[..|right| - 1];
      TrimRightIs(s, right[..|right| - 1]);
    }
  }

  lemma TrimTight(s: text)
    requires Tight(s)
    ensures Trim(s) == s
  {
    TrimIs([], s, []);
    assert [] + s + [] == s;
  }

  lemma TrimIgnoresRight(s: text, right: text)
    requires AllSpace(right)
    ensures Trim(s + right) == Trim(s)
  {
    var l, r := TrimSplits(s);
    TrimIs(l, Trim(s), r + right);
    assert s + right == l + Trim(s) + (r + right);
  }

  /** The trimming loops. */
  method Trimmed(value: text) returns (r: text)
    ensures r == Trim(value)
  {
    r := value;
    while r != [] && Space(r[0])
      invariant TrimLeft(r) == TrimLeft(value)
    {
      r := r[1..];
    }
    while r != [] && Space(r[|r| - 1])
      invariant TrimRight(r) == Trim(value)
    {
      r := r[..|r| - 1];
    }
  }

  // ----- ASCII case -----

  function Lower(c: byte): byte { if 65 <= c <= 90 then c + 32 else c }

  function Upper(c: byte): byte { if 97 <= c <= 122 then c - 32 else c }

  function Fold(s: text): (r: text)
    ensures |r| == |s|
  {
    if s == [] then [] else [Lower(s[0])] + Fold(s[1..])
  }

  function Uppercase(s: text): (r: text)
    ensures |r| == |s|
    ensures forall i :: 0 <= i < |s| ==> r[i] == Upper(s[i])
  {
    if s == [] then [] else [Upper(s[0])] + Uppercase(s[1..])
  }

  /** Equality ignoring ASCII case. */
  predicate Same(a: text, b: text) { Fold(a) == Fold(b) }

  lemma {:induction false} FoldAt(s: text)
    ensures forall i :: 0 <= i < |s| ==> Fold(s)[i] == Lower(s[i])
  {
    if s != [] { FoldAt(s[1..]); }
  }

  lemma {:induction false} FoldAppend(a: text, b: text)
    ensures Fold(a + b) == Fold(a) + Fold(b)
  {
    if a == [] {
      assert a + b == b;
    } else {
      assert (a + b)[1..] == a[1..] + b;
      FoldAppend(a[1..], b);
    }
  }

  lemma {:induction false} UppercaseIsSame(s: text)
    ensures Same(Uppercase(s), s)
  {
    if s != [] { UppercaseIsSame(s[1..]); }
  }

  /** The comparison loop. */
  method EqualCaseInsensitive(left: text, right: text) returns (r: bool)
    ensures r == Same(left, right)
  {
    FoldAt(left);
    FoldAt(right);
    if |left| != |right| { return false; }
    for i := 0 to |left|
      invariant forall k :: 0 <= k < i ==> Fold(left)[k] == Fold(right)[k]
    {
      if Lower(left[i]) != Lower(right[i]) {
        assert Fold(left)[i] != Fold(right)[i];
        return false;
      }
    }
    return true;
  }

  // ----- Lines -----

  predicate NoNewline(s: text) { NEWLINE !in s }

  /** Index of the first `c`, or the length. */
  function Find(s: text, c: byte): (n: nat)
    ensures n <= |s|
    ensures n < |s| ==> s[n] == c
    ensures c !in s[..n]
  {
    if s == [] || s[0] == c then 0
    else
      var n := 1 + Find(s[1..], c);
      assert s[..n] == [s[0]] + s[1..][..n - 1];
      n
  }

  lemma {:induction false} FindIs(a: text, c: byte, b: text)
    requires c !in a
    ensures Find(a + [c] + b, c) == |a|
  {
    if a != [] {
      assert (a + [c] + b)[1..] == a[1..] + [c] + b;
      FindIs(a[1..], c, b);
    }
  }

  /** Lines of a text; a final newline ends the last line and starts no further one. */
  function Lines(s: text): (lines: seq<text>)
    ensures forall i :: 0 <= i < |lines| ==> NoNewline(lines[i])
    decreases |s|
  {
    if s == [] then []
    else
      var n := Find(s, NEWLINE);
      if n == |s| then (assert s[..n] == s; [s]) else [s[..n]] + Lines(s[n + 1..])
  }

  /** Every line with a newline after it. */
  function Unlines(lines: seq<text>): text {
    if lines == [] then [] else lines[0] + [NEWLINE] + Unlines(lines[1..])
  }

  lemma {:induction false} LinesRoundTrip(lines: seq<text>)
    requires forall i :: 0 <= i < |lines| ==> NoNewline(lines[i])
    ensures Lines(Unlines(lines)) == lines
  {
    if lines != [] {
      var rest := lines[1..];
      FindIs(lines[0], NEWLINE, Unlines(rest));
      var s := Unlines(lines);
      assert s[..|lines[0]|] == lines[0] && s[|lines[0]| + 1..] == Unlines(rest);
      LinesRoundTrip(rest);
    }
  }

  lemma {:induction false} UnlinesAppend(a: seq<text>, b: seq<text>)
    ensures Unlines(a + b) == Unlines(a) + Unlines(b)
  {
    if a == [] {
      assert a + b == b;
    } else {
      assert (a + b)[1..] == a[1..] + b;
      UnlinesAppend(a[1..], b);
    }
  }

  lemma FirstLine(a: text, b: text)
    requires NoNewline(a)
    ensures Lines(a + [NEWLINE] + b) == [a] + Lines(b)
  {
    FindIs(a, NEWLINE, b);
    var s := a + [NEWLINE] + b;
    assert s[..|a|] == a && s[|a| + 1..] == b;
  }

  lemma OneLine(a: text)
    requires NoNewline(a)
    ensures Lines(a + [NEWLINE]) == [a]
  {
    FirstLine(a, []);
    assert a + [NEWLINE] + [] == a + [NEWLINE];
  }

  /** What follows a newline is split on its own. */
  lemma {:induction false} LinesAppend(a: text, b: text)
    ensures Lines(a + [NEWLINE] + b) == Lines(a + [NEWLINE]) + Lines(b)
    decreases |a|
  {
    hide Lines;
    var n := Find(a, NEWLINE);
    if n == |a| {
      assert a[..n] == a;
      FirstLine(a, b);
      OneLine(a);
    } else {
      var before, after := a[..n], a[n + 1..];
      FirstLine(before, after + [NEWLINE] + b);
      FirstLine(before, after + [NEWLINE]);
      assert a == before + [NEWLINE] + after;
      assert a + [NEWLINE] + b == before + [NEWLINE] + (after + [NEWLINE] + b);
      assert a + [NEWLINE] == before + [NEWLINE] + (after + [NEWLINE]);
      LinesAppend(after, b);
      assert [before] + (Lines(after + [NEWLINE]) + Lines(b)) == [before] + Lines(after + [NEWLINE]) + Lines(b);
    }
  }

  lemma {:induction false} FindBefore(s: text, c: byte, at: nat)
    requires at < |s| && s[at] == c
    ensures Find(s, c) <= at
  {
    if at > 0 && s[0] != c { FindBefore(s[1..], c, at - 1); }
  }

  /** Folding keeps and reflects every character that is not a letter. */
  lemma SameCharacters(a: text, b: text)
    requires Same(a, b)
    ensures |a| == |b| && forall i :: 0 <= i < |a| ==> Lower(a[i]) == Lower(b[i])
  {
    FoldAt(a);
    FoldAt(b);
  }
}
