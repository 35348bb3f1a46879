/** From the text of config.txt, through its lines and chunks, to what the controller fetches. */
module ConfigurationDelivery {
  import opened Bytes
  import opened ControllerTransfer
  import opened TransferAdapter
  import opened ConfigTransfer
  import Document = ConfigurationDocument
  import Text = ConfigurationText

  // ----- What should arrive -----

  /** Lines meant for the controller: of at least two bytes and no comment of either kind. */
  predicate Wanted(line: seq<byte>) {
    |line| >= 2 && line[0] != HASH && line[0] != STAR
  }

  function Kept(line: seq<byte>): seq<seq<byte>> {
    if Wanted(line) then [line + [NEWLINE]] else []
  }

  /** The wanted lines, each ended by a newline. */
  function Selected(lines: seq<seq<byte>>): seq<seq<byte>> {
    if lines == [] then [] else Kept(lines[0]) + Selected(lines[1..])
  }

  // ----- What does arrive -----

  /** What a line of 255-byte chunks has in its last one, before the newline. */
  function LastPart(line: seq<byte>): seq<byte> { line[|line| - |line| % 255..] }

  /** The last chunk of a line: the only one that ends with a newline. */
  function Tail(line: seq<byte>): (tail: seq<byte>)
    ensures 1 <= |tail| <= CHUNK_SIZE
    ensures |line| < CHUNK_SIZE ==> tail == line + [NEWLINE]
  {
    LastPart(line) + [NEWLINE]
  }

  predicate Sendable(tail: seq<byte>) {
    |tail| > 2 && tail[0] != HASH && tail[0] != STAR
  }

  /**
   What arrives of a line: its last part, unless that has fewer than two bytes or starts with a hash or an
   asterisk; whole if it has at most 63 bytes, otherwise its first 62 bytes; then a newline, and after a
   shortened part a zero byte.
   */
  function Arriving(line: seq<byte>): seq<seq<byte>> {
    var part := LastPart(line);
    if |part| < 2 || part[0] == 35 || part[0] == 42 then []
    else if |part| <= 63 then [part + [10]]
    else [part[..62] + [10, 0]]
  }

  /** It is the transformed last chunk when that is eligible. */
  lemma ArrivingIsTransformed(line: seq<byte>)
    ensures Arriving(line) == if Sendable(Tail(line)) then [Transform(Tail(line))] else []
  {
    var part := LastPart(line);
    assert Tail(line)[..|part|] == part;
    if |part| > 63 { assert Tail(line)[..62] == part[..62]; }
  }

  lemma TailStep(line: seq<byte>)
    requires |line| >= CHUNK_SIZE
    ensures Tail(line[CHUNK_SIZE..]) == Tail(line)
  {
    var rest := line[CHUNK_SIZE..];
    assert |rest| % 255 == |line| % 255;
    assert rest[|rest| - |rest| % 255..] == line[|line| - |line| % 255..];
  }

  /** What arrives of all lines, in order. */
  function Arrived(lines: seq<seq<byte>>): seq<seq<byte>> {
    if lines == [] then [] else Arriving(lines[0]) + Arrived(lines[1..])
  }

  predicate NewlineFree(lines: seq<seq<byte>>) {
    forall i :: 0 <= i < |lines| ==> NEWLINE !in lines[i]
  }

  lemma {:induction false} RecordsOfLine(line: seq<byte>, rest: seq<seq<byte>>)
    requires NEWLINE !in line
    ensures Records(Pieces(line + [NEWLINE], CHUNK_SIZE) + rest) == Arriving(line) + Records(rest)
    decreases |line|
  {
    hide Transform, Arriving, Tail, Records;
    var record := line + [NEWLINE];
    ArrivingIsTransformed(line);
    if |line| < CHUNK_SIZE {
      OnePiece(record);
      OneRecord(record, rest);
    } else {
      var piece, more := record[..CHUNK_SIZE], Pieces(record[CHUNK_SIZE..], CHUNK_SIZE);
      RecordsOfLine(line[CHUNK_SIZE..], rest);
      ArrivingIsTransformed(line[CHUNK_SIZE..]);
      TailStep(line);
      assert record[CHUNK_SIZE..] == line[CHUNK_SIZE..] + [NEWLINE];
      assert Pieces(record, CHUNK_SIZE) == [piece] + more;
      SkipFullPiece(piece, more + rest);
      assert [piece] + more + rest == [piece] + (more + rest);
    }
  }

  lemma OneRecord(record: seq<byte>, rest: seq<seq<byte>>)
    requires record != [] && record[|record| - 1] == NEWLINE
    ensures Records([record] + rest) == (if Sendable(record) then [Transform(record)] else []) + Records(rest)
  {
    hide Transform;
    assert ([record] + rest)[1..] == rest;
    assert [] + Records(rest) == Records(rest);
  }

  lemma OnePiece(record: seq<byte>)
    requires 0 < |record| <= CHUNK_SIZE
    ensures Pieces(record, CHUNK_SIZE) == [record]
  {
    assert record[..|record|] == record && record[|record|..] == [];
    assert Pieces([], CHUNK_SIZE) == [];
  }

  lemma SkipFullPiece(piece: seq<byte>, later: seq<seq<byte>>)
    requires |piece| > 0 && piece[|piece| - 1] != NEWLINE && later != []
    ensures Records([piece] + later) == Records(later)
  {
    hide Transform;
    assert ([piece] + later)[1..] == later;
  }

  /** The records of any lines are exactly their eligible last chunks. */
  lemma {:induction false} RecordsOfLines(lines: seq<seq<byte>>)
    requires NewlineFree(lines)
    ensures Records(LinePieces(lines, CHUNK_SIZE)) == Arrived(lines)
  {
    hide Pieces, Arriving;
    if lines != [] {
      RecordsOfLines(lines[1..]);
      RecordsOfLine(lines[0], LinePieces(lines[1..], CHUNK_SIZE));
    }
  }

  // ----- When the two agree -----

  /** A wanted line must fit a record whole, and the last chunk of any other line must not be eligible. */
  predicate Intact(line: seq<byte>) {
    if Wanted(line) then |line| < MAXIMUM_UNMODIFIED else !Sendable(Tail(line))
  }

  predicate AllIntact(lines: seq<seq<byte>>) {
    lines == [] || (Intact(lines[0]) && AllIntact(lines[1..]))
  }

  /** Files without a line of more than 63 bytes are intact. */
  lemma {:induction false} ShortLinesAreIntact(lines: seq<seq<byte>>)
    requires forall i :: 0 <= i < |lines| ==> |lines[i]| <= 63
    ensures AllIntact(lines)
  {
    if lines != [] {
      assert Tail(lines[0]) == lines[0] + [NEWLINE];
      ShortLinesAreIntact(lines[1..]);
    }
  }

  function Newlines(s: seq<byte>): nat {
    if s == [] then 0 else (if s[0] == NEWLINE then 1 else 0) + Newlines(s[1..])
  }

  lemma {:induction false} NewlinesAppend(a: seq<byte>, b: seq<byte>)
    ensures Newlines(a + b) == Newlines(a) + Newlines(b)
  {
    if a == [] {
      assert a + b == b;
    } else {
      assert (a + b)[1..] == a[1..] + b;
      NewlinesAppend(a[1..], b);
    }
  }

  lemma {:induction false} NoNewlines(s: seq<byte>)
    requires NEWLINE !in s
    ensures Newlines(s) == 0
  {
    if s != [] { NoNewlines(s[1..]); }
  }

  lemma OneNewline(s: seq<byte>, after: seq<byte>)
    requires NEWLINE !in s && NEWLINE !in after
    ensures Newlines(s + [NEWLINE] + after) == 1
  {
    NewlinesAppend(s + [NEWLINE], after);
    NewlinesAppend(s, [NEWLINE]);
    NoNewlines(s);
    NoNewlines(after);
    var one: seq<byte> := [NEWLINE];
    assert one[1..] == [];
  }

  lemma ArrivingLine(line: seq<byte>)
    requires NEWLINE !in line && Sendable(Tail(line))
    ensures Newlines(Transform(Tail(line))) == 1
  {
    var body, tail := LastPart(line), Tail(line);
    if |tail| <= MAXIMUM_UNMODIFIED {
      OneNewline(body, []);
      assert body + [NEWLINE] + [] == tail;
    } else {
      var cut := body[..MAXIMUM_UNMODIFIED - 2];
      OneNewline(cut, [0]);
      assert Transform(tail) == cut + [NEWLINE] + [0];
    }
  }

  /** Bytes missing from what arrived, less 65 for every line missing: never negative. */
  function Deficit(wanted: seq<byte>, arrived: seq<byte>): int {
    |wanted| - |arrived| - 65 * (Newlines(wanted) - Newlines(arrived))
  }

  lemma LineDeficit(line: seq<byte>)
    requires NEWLINE !in line
    ensures Deficit(Concat(Kept(line)), Concat(Arriving(line))) >= 0
    ensures Deficit(Concat(Kept(line)), Concat(Arriving(line))) == 0 <==> Intact(line)
    ensures Intact(line) ==> Kept(line) == Arriving(line)
  {
    hide Newlines, Transform, Arriving;
    ArrivingIsTransformed(line);
    ConcatOne(line + [NEWLINE]);
    ConcatOne(Shortened(Tail(line)));
    OneNewline(line, []);
    assert line + [NEWLINE] + [] == line + [NEWLINE];
    EmptyHasNone();
    if Sendable(Tail(line)) { ArrivingLine(line); }
    if Wanted(line) && |line| < MAXIMUM_UNMODIFIED { ShortIsKept(line); }
  }

  /** The truncated tail, or nothing if it is too short to be a record. */
  function Shortened(tail: seq<byte>): seq<byte> { if |tail| > 2 then Transform(tail) else [] }

  lemma ConcatOne(s: seq<byte>)
    ensures Concat([s]) == s
  {
    var one: seq<seq<byte>> := [s];
    assert one[1..] == [] && s + [] == s;
  }

  lemma EmptyHasNone()
    ensures Newlines([]) == 0
  {
  }

  lemma ShortIsKept(line: seq<byte>)
    requires Wanted(line) && |line| < MAXIMUM_UNMODIFIED
    ensures Kept(line) == Arriving(line)
  {
  }

  lemma {:induction false} LinesDeficit(lines: seq<seq<byte>>)
    requires NewlineFree(lines)
    ensures Deficit(Concat(Selected(lines)), Concat(Arrived(lines))) >= 0
    ensures Deficit(Concat(Selected(lines)), Concat(Arrived(lines))) == 0 <==> AllIntact(lines)
    ensures AllIntact(lines) ==> Selected(lines) == Arrived(lines)
  {
    hide Kept, Arriving, Newlines, Intact, Concat;
    if lines == [] {
      NothingMissing();
    } else {
      LineDeficit(lines[0]);
      LinesDeficit(lines[1..]);
      ConcatAppend(Kept(lines[0]), Selected(lines[1..]));
      ConcatAppend(Arriving(lines[0]), Arrived(lines[1..]));
      NewlinesAppend(Concat(Kept(lines[0])), Concat(Selected(lines[1..])));
      NewlinesAppend(Concat(Arriving(lines[0])), Concat(Arrived(lines[1..])));
    }
  }

  lemma NothingMissing()
    ensures Deficit(Concat([]), Concat([])) == 0
  {
  }

  /** The records are the wanted lines exactly when every line is intact, byte for byte as well. */
  lemma RecordsAreLinesExactly(lines: seq<seq<byte>>)
    requires NewlineFree(lines)
    ensures Records(LinePieces(lines, CHUNK_SIZE)) == Selected(lines) <==> AllIntact(lines)
    ensures Concat(Records(LinePieces(lines, CHUNK_SIZE))) == Concat(Selected(lines)) <==> AllIntact(lines)
  {
    hide Selected, Arrived, Newlines, Concat, Records, AllIntact, LinePieces;
    RecordsOfLines(lines);
    LinesDeficit(lines);
  }

  lemma LinesOfDocument(source: seq<byte>)
    ensures NewlineFree(Document.Originals(Document.Parse(source)))
  {
    Document.ParsedReads(Text.Lines(source));
  }

  /**
   For every configuration text the controller's walk fetches the eligible last chunks of its lines.
   These are the wanted lines, complete and in order, if and only if every wanted line has at most 63
   bytes and the last 255-byte chunk of no other line is eligible.
   */
  lemma ConfigurationDelivered(s: State, geometry: seq<byte>, port: Port, source: seq<byte>)
    requires Succeeding(port) && ParseGeometry(geometry).Some?
    requires port.chunks == Some(LinePieces(Document.Originals(Document.Parse(source)), CHUNK_SIZE))
    requires |Records(port.chunks.value)| <= TWO_TO_THE_32
    ensures var lines := Document.Originals(Document.Parse(source));
            var fetched := Fetched(OnGeometry(s, geometry, port).state, port, Walk(Records(port.chunks.value), 0));
            && fetched == Concat(Arrived(lines))
            && (fetched == Concat(Selected(lines)) <==> AllIntact(lines))
  {
    hide Records, Fetched, Walk, OnGeometry, LinePieces, Succeeding, Concat, ParseGeometry, Arrived, Selected,
         AllIntact;
    var lines := Document.Originals(Document.Parse(source));
    LinesOfDocument(source);
    RecordsOfLines(lines);
    RecordsAreLinesExactly(lines);
    ConfigurationFetched(s, geometry, port);
  }

  /** The tail of a comment longer than 254 bytes reaches the controller as a record. */
  lemma LongCommentLeaks(comment: seq<byte>, tail: seq<byte>)
    requires |comment| == CHUNK_SIZE && comment[0] == HASH && NEWLINE !in comment + tail
    requires 2 <= |tail| < MAXIMUM_UNMODIFIED && tail[0] != HASH && tail[0] != STAR
    ensures Selected([comment + tail]) == []
    ensures Records(LinePieces([comment + tail], CHUNK_SIZE)) == [tail + [NEWLINE]]
  {
    hide Records, LinePieces, Arriving;
    var lines: seq<seq<byte>>, none: seq<seq<byte>> := [comment + tail], [];
    assert lines[1..] == none;
    LeakingPart(comment, tail);
    RecordsOfLines(lines);
  }

  lemma LeakingPart(comment: seq<byte>, tail: seq<byte>)
    requires |comment| == CHUNK_SIZE && 2 <= |tail| < MAXIMUM_UNMODIFIED && tail[0] != HASH && tail[0] != STAR
    ensures Arriving(comment + tail) == [tail + [NEWLINE]]
  {
    var line := comment + tail;
    assert |line| % 255 == |tail|;
    assert line[|line| - |tail|..] == tail;
  }
}
