/** The transfer adapter's own arithmetic: file reads, chunking and the published progress. */
module TransferAdapter {
  import opened Arithmetic
  import opened Bytes

  // ----- Reading -----

  /** Fates of the calls of one read: opening, seeking, and reading without a stream error. */
  datatype ReadIo = ReadIo(opens: bool, seeks: bool, reads_: bool)

  const READS := ReadIo(true, true, true)

  /**
   A block read at an offset that must fit the C library's `long`; short at the end of the file. After
   a failed seek the read goes on from the beginning of the file.
   */
  function ReadBlock(longMax: nat, file: seq<byte>, offset: nat, maximum: nat, io: ReadIo): (r: Option<seq<byte>>)
    ensures r.Some? <==> maximum > 0 && offset <= longMax && io.opens && io.reads_
    ensures r.Some? && io.seeks && offset <= |file| ==>
              file[..offset] + r.value <= file && |r.value| == Min(maximum, |file| - offset)
    ensures r.Some? && io.seeks && offset > |file| ==> r.value == []
    ensures r.Some? && !io.seeks ==> r.value <= file && |r.value| == Min(maximum, |file|)
  {
    if maximum == 0 || offset > longMax || !io.opens || !io.reads_ then None
    else
      var start := if io.seeks then offset else 0;
      if start >= |file| then Some([])
      else
        var end := Min(start + maximum, |file|);
        assert file[..start] + file[start..end] == file[..end];
        Some(file[start..end])
  }

  /** A read whose calls all succeed. */
  function ReadFile(longMax: nat, file: seq<byte>, offset: nat, maximum: nat): (r: Option<seq<byte>>)
    ensures r.Some? <==> maximum > 0 && offset <= longMax
    ensures r.Some? && offset <= |file| ==>
              file[..offset] + r.value <= file && |r.value| == Min(maximum, |file| - offset)
  {
    ReadBlock(longMax, file, offset, maximum, READS)
  }

  /** Consecutive pieces of `size` bytes; only the last may be shorter. */
  function Pieces(record: seq<byte>, size: nat): (pieces: seq<seq<byte>>)
    requires size > 0
    decreases |record|
  {
    if |record| == 0 then []
    else
      var n := Min(size, |record|);
      [record[..n]] + Pieces(record[n..], size)
  }

  /** Cutting loses nothing, and only the last piece may be shorter than `size`. */
  lemma {:induction false} PiecesComplete(record: seq<byte>, size: nat)
    requires size > 0
    ensures Concat(Pieces(record, size)) == record
    ensures forall i :: 0 <= i < |Pieces(record, size)| ==> 1 <= |Pieces(record, size)[i]| <= size
    ensures forall i :: 0 <= i < |Pieces(record, size)| - 1 ==> |Pieces(record, size)[i]| == size
    decreases |record|
  {
    if |record| > 0 {
      var n := Min(size, |record|);
      PiecesComplete(record[n..], size);
      assert record == record[..n] + record[n..];
    }
  }

  lemma NextPiece(data: seq<byte>, offset: nat, size: nat, done: seq<seq<byte>>)
    requires size > 0 && offset < |data|
    ensures var next := Min(offset + size, |data|);
            done + Pieces(data[offset..], size) == done + [data[offset..next]] + Pieces(data[next..], size)
  {
    var next := Min(offset + size, |data|);
    var rest := data[offset..];
    var n := Min(size, |rest|);
    assert rest[n..] == data[next..] && rest[..n] == data[offset..next];
    Regroup(done, [data[offset..next]], Pieces(data[next..], size));
  }

  lemma Regroup(x: seq<seq<byte>>, y: seq<seq<byte>>, z: seq<seq<byte>>)
    ensures x + (y + z) == x + y + z
  {
  }

  lemma NoPieces(size: nat)
    requires size > 0
    ensures Pieces([], size) == []
  {
  }

  /** Where the last piece of `length` bytes starts. */
  function LastStart(length: nat, size: nat): (start: nat)
    requires size > 0
    ensures start <= length && (length > 0 ==> start < length <= start + size)
    decreases length
  {
    if length <= size then 0 else size + LastStart(length - size, size)
  }

  /**
   The whole file cut into chunks by repeated reads; it fails for a missing file or a zero size, and
   otherwise exactly when the last chunk starts beyond the range of `long`.
   */
  method ReadChunks(longMax: nat, file: Option<seq<byte>>, size: nat) returns (chunks: Option<seq<seq<byte>>>)
    ensures chunks.Some? <==> file.Some? && size > 0 && LastStart(|file.value|, size) <= longMax
    ensures chunks.Some? ==> chunks.value == Pieces(file.value, size)
  {
    hide Pieces;
    if file.None? || size == 0 { return None; }
    var data := file.value;
    var done: seq<seq<byte>> := [];
    var offset := 0;
    NoPieces(size);
    assert data[0..] == data;
    while offset < |data|
      invariant 0 <= offset <= |data|
      invariant offset < |data| ==> offset + LastStart(|data| - offset, size) == LastStart(|data|, size)
      invariant offset == |data| ==> LastStart(|data|, size) <= longMax
      invariant Pieces(data, size) == done + Pieces(data[offset..], size)
      decreases |data| - offset
    {
      var chunk := ReadFile(longMax, data, offset, size);
      if chunk.None? || chunk.value == [] { return None; }
      NextPiece(data, offset, size, done);
      done := done + [chunk.value];
      offset := offset + |chunk.value|;
    }
    assert data[offset..] == [] && done + Pieces([], size) == done;
    chunks := Some(done);
  }

  /** Every configuration line, ended by a newline, cut into pieces of its own. */
  function LinePieces(lines: seq<seq<byte>>, size: nat): (chunks: seq<seq<byte>>)
    requires size > 0
  {
    if lines == [] then [] else Pieces(lines[0] + [10], size) + LinePieces(lines[1..], size)
  }

  function Joined(lines: seq<seq<byte>>): seq<byte> {
    if lines == [] then [] else lines[0] + [10] + Joined(lines[1..])
  }

  /** Chunking loses nothing: the chunks concatenate to the newline-terminated lines. */
  lemma {:induction false} LinePiecesComplete(lines: seq<seq<byte>>, size: nat)
    requires size > 0
    ensures Concat(LinePieces(lines, size)) == Joined(lines)
    ensures forall i :: 0 <= i < |LinePieces(lines, size)| ==> 1 <= |LinePieces(lines, size)[i]| <= size
  {
    if lines != [] {
      LinePiecesComplete(lines[1..], size);
      PiecesComplete(lines[0] + [10], size);
      ConcatAppend(Pieces(lines[0] + [10], size), LinePieces(lines[1..], size));
    }
  }

  method ReadConfigurationChunks(lines: seq<seq<byte>>, size: nat) returns (chunks: Option<seq<seq<byte>>>)
    ensures chunks == if size == 0 then None else Some(LinePieces(lines, size))
  {
    if size == 0 { return None; }
    var done: seq<seq<byte>> := [];
    for i := 0 to |lines|
      invariant LinePieces(lines, size) == done + LinePieces(lines[i..], size)
    {
      var record := lines[i] + [10];
      ghost var before := done;
      var offset := 0;
      assert record[0..] == record;
      while offset < |record|
        invariant 0 <= offset <= |record|
        invariant before + Pieces(record, size) == done + Pieces(record[offset..], size)
        decreases |record| - offset
      {
        var next := Min(offset + size, |record|);
        NextPiece(record, offset, size, done);
        done := done + [record[offset..next]];
        offset := next;
      }
      assert done + Pieces([], size) == done;
      assert lines[i..][1..] == lines[i + 1..];
      Regroup(before, Pieces(record, size), LinePieces(lines[i + 1..], size));
    }
    assert done + LinePieces([], size) == done;
    chunks := Some(done);
  }

  // ----- Progress -----

  /** Published progress, in the code's unsigned 32-bit arithmetic. */
  function Progress(index: nat, frameCount: nat): nat {
    if frameCount == 0 then 0 else Scaled(index, frameCount / 2) / frameCount
  }

  function Scaled(index: nat, half: nat): nat {
    (100 * index % TWO_TO_THE_32 + half) % TWO_TO_THE_32
  }

  /** The largest intermediate value of the computation fits 32 bits. */
  predicate ProgressFits(frameCount: nat) {
    100 * frameCount + frameCount / 2 < TWO_TO_THE_32
  }

  /** Within the range the progress grows with the index, stays within 100 and ends at 100. */
  lemma ProgressMonotone(i: nat, j: nat, frameCount: nat)
    requires ProgressFits(frameCount) && i <= j <= frameCount
    ensures Progress(i, frameCount) <= Progress(j, frameCount) <= 100
  {
    if frameCount > 0 {
      var half := frameCount / 2;
      Fits(i, frameCount);
      Fits(j, frameCount);
      QuotientMonotone(100 * i + half, 100 * j + half, frameCount);
      QuotientMonotone(100 * j + half, 100 * frameCount + half, frameCount);
      QuotientIs(100 * frameCount + half, frameCount, 100);
    }
  }

  /** The last frame is published as exactly 100 if and only if nothing wraps around. */
  lemma ProgressComplete(frameCount: nat)
    requires 0 < frameCount < TWO_TO_THE_32
    ensures Progress(frameCount, frameCount) == 100 <==> ProgressFits(frameCount)
  {
    var half := frameCount / 2;
    if ProgressFits(frameCount) {
      Fits(frameCount, frameCount);
      QuotientIs(100 * frameCount + half, frameCount, 100);
    } else {
      WrapLoses(100 * frameCount, half);
      Quotient(Scaled(frameCount, half), frameCount, 100);
    }
  }

  /** Within the range the progress is the percentage rounded to the nearest integer, halves upwards. */
  lemma ProgressIsNearest(index: nat, frameCount: nat)
    requires 0 < frameCount && ProgressFits(frameCount) && index <= frameCount
    ensures var product := frameCount * Progress(index, frameCount);
            2 * product - frameCount <= 200 * index < 2 * product + frameCount
  {
    hide Progress;
    var percent, half := Progress(index, frameCount), frameCount / 2;
    ProgressIs(index, frameCount);
    Quotient(100 * index + half, frameCount, percent);
    Quotient(100 * index + half, frameCount, percent + 1);
    NextMultiple(frameCount, percent);
  }

  lemma ProgressIs(index: nat, frameCount: nat)
    requires 0 < frameCount && ProgressFits(frameCount) && index <= frameCount
    ensures Progress(index, frameCount) == (100 * index + frameCount / 2) / frameCount
  {
    Fits(index, frameCount);
  }

  lemma NextMultiple(n: nat, k: nat)
    ensures n * (k + 1) == n * k + n
  {
  }

  /** Nothing is announced, nothing is done. */
  lemma NoProgress(index: nat, frameCount: nat)
    requires ProgressFits(frameCount) && index <= frameCount
    ensures frameCount == 0 || index == 0 ==> Progress(index, frameCount) == 0
  {
    if frameCount > 0 {
      Fits(index, frameCount);
      QuotientIs(frameCount / 2, frameCount, 0);
    }
  }

  lemma Fits(index: nat, frameCount: nat)
    requires ProgressFits(frameCount) && index <= frameCount
    ensures Scaled(index, frameCount / 2) == 100 * index + frameCount / 2
  {
    assert 100 * index % TWO_TO_THE_32 == 100 * index;
  }

  lemma WrapLoses(a: nat, half: nat)
    requires a + half >= TWO_TO_THE_32 && half < TWO_TO_THE_32 && half < a
    ensures (a % TWO_TO_THE_32 + half) % TWO_TO_THE_32 < a
  {
    var r := (a % TWO_TO_THE_32 + half) % TWO_TO_THE_32;
    if a < TWO_TO_THE_32 {
      assert a % TWO_TO_THE_32 == a;
      assert r == a + half - TWO_TO_THE_32;
    } else {
      assert r < TWO_TO_THE_32;
    }
  }

  /** Frame sizes of at least 101 bytes keep every file below 2^32 bytes within the range. */
  lemma ProgressFitsFrom101(frameCount: nat, size: nat, fileSize: nat)
    requires size >= 101 && fileSize < TWO_TO_THE_32
    requires frameCount > 0 ==> (frameCount - 1) * size < fileSize
    ensures ProgressFits(frameCount)
  {
    if frameCount > 0 { MultiplyMonotone(frameCount - 1, 101, size); }
    FitsBelow(frameCount, (frameCount - 1) * 101);
  }

  lemma FitsBelow(frameCount: nat, covered: int)
    requires covered == (frameCount - 1) * 101 && covered < TWO_TO_THE_32
    ensures ProgressFits(frameCount)
  {
  }
}
