/** The IVF reader inside `decodeH265IvfWithExternalDescription`
    (h265/decode_h265_ivf.js): checks on the description and the 32-byte
    header, then a loop over the frame records that always starts at byte 32
    and hands one chunk per complete record to the platform decoder. */
module H265Ivf {
  import opened Bytes
  import opened JsNumber
  import opened IvfLayout

  /** "H265" in ASCII: the codec tag this reader expects (and only warns about). */
  const H265Tag: seq<Byte> := [0x48, 0x32, 0x36, 0x35]

  /** Every field of the 32-byte header the function reads. */
  datatype H265Header = H265Header(
    version: nat, headerLen: nat, codecFourCC: seq<Byte>, width: nat, height: nat,
    timebaseDen: nat, timebaseNum: nat, numFrames: nat)

  /** The non-fatal header deviations the function reports. */
  datatype Warning = HeaderLengthNot32 | VersionNotZero | FourCCNotH265

  /** An `EncodedVideoChunk` as submitted: its type, its timestamp in
      microseconds, the full 64-bit IVF frame number it was derived from,
      and the payload slice. */
  datatype H265Chunk = H265Chunk(key: bool, timestamp: Num, frameNumber: nat, data: seq<Byte>)

  /** How a call ends: the first five cases abort before the frame loop;
      `TimestampRejected` is the `TypeError` the `EncodedVideoChunk`
      constructor throws out of the loop for a timestamp it does not accept,
      after `chunks` were already handed to the decoder, so the decoder is
      never flushed. Whether the canvas exists and whether the platform
      accepts the decoder configuration are inputs to the model. */
  datatype Outcome =
    | EmptyDescription
    | FileTooShort
    | BadMagic
    | NoCanvas(header: H265Header, warnings: seq<Warning>)
    | ConfigRejected(header: H265Header, warnings: seq<Warning>)
    | TimestampRejected(header: H265Header, warnings: seq<Warning>, chunks: seq<H265Chunk>)
    | Submitted(header: H265Header, warnings: seq<Warning>, chunks: seq<H265Chunk>, frameCount: nat)

  /** The header fields at their fixed offsets. */
  function ReadHeader(file: seq<Byte>): (h: H265Header)
    requires |file| >= HeaderSize
    ensures |h.codecFourCC| == 4
    ensures h.version < Two16 && h.headerLen < Two16 && h.width < Two16 && h.height < Two16
    ensures h.timebaseDen < Two32 && h.timebaseNum < Two32 && h.numFrames < Two32
  {
    H265Header(
      version := U16At(file, 4),
      headerLen := U16At(file, 6),
      codecFourCC := file[8..12],
      width := U16At(file, 12),
      height := U16At(file, 14),
      timebaseDen := U32At(file, 16),
      timebaseNum := U32At(file, 20),
      numFrames := U32At(file, 24))
  }

  /** The warnings for a header, in the order they are reported. */
  function Warnings(h: H265Header): (ws: seq<Warning>)
    ensures HeaderLengthNot32 in ws <==> h.headerLen != 32
    ensures VersionNotZero in ws <==> h.version != 0
    ensures FourCCNotH265 in ws <==> h.codecFourCC != H265Tag
    ensures |ws| <= 3
  {
    (if h.headerLen != 32 then [HeaderLengthNot32] else [])
    + (if h.version != 0 then [VersionNotZero] else [])
    + (if h.codecFourCC != H265Tag then [FourCCNotH265] else [])
  }

  /** Reading a written header gives back every field. */
  lemma ReadWrittenHeader(h: HeaderFields, rest: seq<Byte>)
    requires EncodableHeader(h)
    ensures ReadHeader(HeaderBytes(h) + rest)
         == H265Header(h.version, h.headerLength, h.fourcc, h.width, h.height, h.rate, h.scale, h.frameCount)
  {
    var hb := HeaderBytes(h);
    assert (hb + rest)[8..12] == hb[8..12];
    U16AtWithin(hb, rest, 4);
    U16AtWithin(hb, rest, 6);
    U16AtWithin(hb, rest, 12);
    U16AtWithin(hb, rest, 14);
    U32AtWithin(hb, rest, 16);
    U32AtWithin(hb, rest, 20);
    U32AtWithin(hb, rest, 24);
  }

  // ---------------------------------------------------------------------
  // Presentation timestamps

  /** The timestamp AS WRITTEN at lines 145-147:
      `Math.round((frameNumber * timebaseDen / timebaseNum) * 1_000_000)`. */
  function TimestampAsWritten(frameNumber: nat, timebaseDen: nat, timebaseNum: nat): Num
  {
    Round(Mul(Div(Mul(Nat(frameNumber), Nat(timebaseDen)), Nat(timebaseNum)), Nat(1_000_000)))
  }

  /** The timestamp the code's own comment describes,
      `(frame_number / (timebase_den / timebase_num)) * 1_000_000`, rounded:
      frame `n` at `n` frame periods of `timebaseNum / timebaseDen` seconds.
      This is the one the decode loop uses. */
  function PresentationTimestamp(frameNumber: nat, timebaseDen: nat, timebaseNum: nat): Num
  {
    Round(Mul(Div(Nat(frameNumber), Div(Nat(timebaseDen), Nat(timebaseNum))), Nat(1_000_000)))
  }

  /** With a positive timebase, the timestamp is a whole number of
      microseconds within half a microsecond of `frameNumber` periods of
      `timebaseNum / timebaseDen` seconds. */
  lemma PresentationTimestampIsRounded(frameNumber: nat, timebaseDen: nat, timebaseNum: nat)
    requires timebaseDen > 0 && timebaseNum > 0
    ensures var r := PresentationTimestamp(frameNumber, timebaseDen, timebaseNum);
            r.Finite? && Whole(r.v) && TimestampBounds(frameNumber, timebaseDen, timebaseNum, r.v)
  {
    PeriodsToMicroseconds(frameNumber, timebaseDen, timebaseNum);
  }

  /** `frameNumber` periods of `timebaseNum / timebaseDen` seconds, in microseconds. */
  function PeriodsInMicroseconds(frameNumber: nat, timebaseDen: nat, timebaseNum: nat): real
    requires timebaseDen > 0
  {
    frameNumber as real * timebaseNum as real / timebaseDen as real * 1_000_000.0
  }

  /** `t` is within half a microsecond of the exact presentation time. */
  predicate TimestampBounds(frameNumber: nat, timebaseDen: nat, timebaseNum: nat, t: real)
    requires timebaseDen > 0
  {
    var exact := PeriodsInMicroseconds(frameNumber, timebaseDen, timebaseNum);
    exact - 0.5 < t <= exact + 0.5
  }

  /** Dividing by the frame rate `timebaseDen / timebaseNum` is multiplying
      by the frame period. */
  lemma PeriodsToMicroseconds(frameNumber: nat, timebaseDen: nat, timebaseNum: nat)
    requires timebaseDen > 0 && timebaseNum > 0
    ensures Mul(Div(Nat(frameNumber), Div(Nat(timebaseDen), Nat(timebaseNum))), Nat(1_000_000))
         == Finite(PeriodsInMicroseconds(frameNumber, timebaseDen, timebaseNum))
  {
    var n, d, m := frameNumber as real, timebaseDen as real, timebaseNum as real;
    assert Div(Nat(timebaseDen), Nat(timebaseNum)) == Finite(d / m);
    assert Div(Nat(frameNumber), Finite(d / m)) == Finite(n / (d / m));
    assert n / (d / m) == n * m / d;
  }

  /** The comment and the code disagree whenever the timebase is not 1/1:
      for a 30 fps timebase (30 at byte 16, 1 at byte 20) frame 1 comes out
      30 seconds after frame 0 as written, instead of 1/30 s. */
  lemma TimestampAsWrittenIsInverted()
    ensures TimestampAsWritten(1, 30, 1) == Finite(30_000_000.0)
    ensures PresentationTimestamp(1, 30, 1) == Finite(33_333.0)
  {
    assert Div(Nat(30), Nat(1)) == Finite(30.0);
    assert Div(Nat(1), Finite(30.0)) == Finite(1.0 / 30.0);
    assert 1.0 / 30.0 * 1_000_000.0 + 0.5 == 200_003.0 / 6.0;
    assert (200_003.0 / 6.0).Floor == 33_333;
  }

  /** As written, a zero u32 at byte 16 with a non-zero one at byte 20
      stamps every record 0, which the constructor accepts. */
  lemma TimestampAsWrittenAtZeroDenIsZero(frameNumber: nat, timebaseNum: nat)
    requires timebaseNum > 0
    ensures TimestampAsWritten(frameNumber, 0, timebaseNum) == Finite(0.0)
    ensures FitsTimestamp(TimestampAsWritten(frameNumber, 0, timebaseNum))
  {
    assert Mul(Nat(frameNumber), Nat(0)) == Finite(0.0);
    assert Div(Finite(0.0), Nat(timebaseNum)) == Finite(0.0);
  }

  /** As written, a zero u32 at byte 20 stamps every record NaN (0 / 0) or
      Infinity, which the constructor rejects: the first complete record
      throws. */
  lemma TimestampAsWrittenAtZeroNumRejects(frameNumber: nat, timebaseDen: nat)
    ensures TimestampAsWritten(frameNumber, timebaseDen, 0).NaN? <==> frameNumber * timebaseDen == 0
    ensures !FitsTimestamp(TimestampAsWritten(frameNumber, timebaseDen, 0))
  {
    var p := Mul(Nat(frameNumber), Nat(timebaseDen));
    assert p == Finite((frameNumber * timebaseDen) as real);
  }

  // ---------------------------------------------------------------------
  // The frame loop

  /** The chunk for record `s`, the `index`-th complete record: a key chunk
      every 30 records starting with the first; the timestamp derived from
      the full 64-bit frame number. */
  function ChunkAt(file: seq<Byte>, s: Span, index: nat, timebaseDen: nat, timebaseNum: nat): H265Chunk
    requires s.End() <= |file|
  {
    var frameNumber := U64At(file, s.start + 4);
    H265Chunk(index % 30 == 0, PresentationTimestamp(frameNumber, timebaseDen, timebaseNum),
              frameNumber, file[s.PayloadStart() .. s.End()])
  }

  /** The chunk built from the record at `start`, field by field, is `ChunkAt`. */
  lemma ChunkOfRecord(file: seq<Byte>, start: nat, size: nat, index: nat, timebaseDen: nat, timebaseNum: nat)
    requires start + FrameHeaderSize + size <= |file|
    ensures ChunkAt(file, Span(start, size), index, timebaseDen, timebaseNum)
         == H265Chunk(index % 30 == 0,
                      PresentationTimestamp(U64At(file, start + 4), timebaseDen, timebaseNum),
                      U64At(file, start + 4),
                      file[start + FrameHeaderSize .. start + FrameHeaderSize + size])
  {
  }

  /** The chunks the loop submits: one per record of the walk from the fixed
      offset 32, whatever header length the file declares. */
  function H265Chunks(file: seq<Byte>, timebaseDen: nat, timebaseNum: nat): (r: seq<H265Chunk>)
    ensures |r| == |Spans(file, HeaderSize)|
  {
    var sp := Spans(file, HeaderSize);
    seq(|sp|, i requires 0 <= i < |sp| => ChunkAt(file, sp[i], i, timebaseDen, timebaseNum))
  }

  /** `fed` is what a loop over `cs` that throws at the first rejected
      timestamp hands to the decoder: a prefix of `cs` whose timestamps are
      all accepted, followed in `cs` by a rejected one unless it is all of
      `cs`. */
  predicate SubmittedPrefix(fed: seq<H265Chunk>, cs: seq<H265Chunk>)
  {
    && |fed| <= |cs|
    && fed == cs[..|fed|]
    && (forall i :: 0 <= i < |fed| ==> FitsTimestamp(fed[i].timestamp))
    && (|fed| < |cs| ==> !FitsTimestamp(cs[|fed|].timestamp))
  }

  /** The `data` AS WRITTEN at line 166: `frameData.buffer`, where
      `frameData` is a `subarray` view of the file's bytes, is the view's
      whole underlying buffer, the entire file, whichever record the view
      covers. */
  function ChunkDataAsWritten(file: seq<Byte>, s: Span): seq<Byte>
    requires s.End() <= |file|
  {
    file
  }

  /** As written, no chunk would carry its record's payload: the buffer
      handed over is the whole file, which holds the 32-byte header and the
      record header besides the payload, so it is strictly longer. */
  lemma ChunkDataAsWrittenIsNotPayload(file: seq<Byte>, timebaseDen: nat, timebaseNum: nat)
    ensures var cs, sp := H265Chunks(file, timebaseDen, timebaseNum), Spans(file, HeaderSize);
            forall i :: 0 <= i < |cs| ==>
              && sp[i].End() <= |file|
              && |cs[i].data| + HeaderSize + FrameHeaderSize <= |ChunkDataAsWritten(file, sp[i])|
              && ChunkDataAsWritten(file, sp[i]) != cs[i].data
  {
    var cs, sp := H265Chunks(file, timebaseDen, timebaseNum), Spans(file, HeaderSize);
    SpansAreRecords(file, HeaderSize);
    forall i | 0 <= i < |cs|
      ensures && sp[i].End() <= |file|
              && |cs[i].data| + HeaderSize + FrameHeaderSize <= |ChunkDataAsWritten(file, sp[i])|
              && ChunkDataAsWritten(file, sp[i]) != cs[i].data
    {
      assert cs[i] == ChunkAt(file, sp[i], i, timebaseDen, timebaseNum);
    }
  }

  /** `decodeH265IvfWithExternalDescription`, from the loaded bytes of both
      files to what is submitted to the decoder. An empty description aborts
      before the IVF bytes are looked at; a file shorter than 32 bytes or
      without "DKIF" aborts; other header deviations are only warnings. A
      missing canvas or a configuration the platform rejects (or whose check
      throws) aborts before any frame is read; otherwise the frames are fed
      until the first timestamp the chunk constructor rejects, which throws
      out of the call. */
  method DecodeH265Ivf(description: seq<Byte>, file: seq<Byte>, canvasReady: bool, configSupported: bool)
    returns (out: Outcome)
    ensures out.EmptyDescription? <==> |description| == 0
    ensures out.FileTooShort? <==> |description| > 0 && |file| < HeaderSize
    ensures out.BadMagic? <==> |description| > 0 && |file| >= HeaderSize && file[0..4] != Signature
    ensures out.NoCanvas? <==> |description| > 0 && |file| >= HeaderSize && file[0..4] == Signature && !canvasReady
    ensures out.ConfigRejected? <==>
              |description| > 0 && |file| >= HeaderSize && file[0..4] == Signature && canvasReady && !configSupported
    ensures out.NoCanvas? || out.ConfigRejected? || out.TimestampRejected? || out.Submitted? ==>
              |file| >= HeaderSize && out.header == ReadHeader(file) && out.warnings == Warnings(out.header)
    ensures out.TimestampRejected? || out.Submitted? <==>
              |description| > 0 && |file| >= HeaderSize && file[0..4] == Signature && canvasReady && configSupported
    ensures out.TimestampRejected? || out.Submitted? ==>
              SubmittedPrefix(out.chunks, H265Chunks(file, out.header.timebaseDen, out.header.timebaseNum))
    ensures out.TimestampRejected? ==>
              |out.chunks| < |H265Chunks(file, out.header.timebaseDen, out.header.timebaseNum)|
    ensures out.Submitted? ==>
              && out.chunks == H265Chunks(file, out.header.timebaseDen, out.header.timebaseNum)
              && out.frameCount == |out.chunks|
  {
    if |description| == 0 {
      return EmptyDescription;
    }
    var offset := 0;
    if offset + HeaderSize > |file| {
      return FileTooShort;
    }
    offset := offset + HeaderSize;
    if file[0..4] != Signature {
      return BadMagic;
    }
    var header := ReadHeader(file);
    var warnings := Warnings(header);
    if !canvasReady {
      return NoCanvas(header, warnings);
    }
    if !configSupported {
      return ConfigRejected(header, warnings);
    }
    var chunks, frameCount, rejected := SubmitFrames(file, offset, header.timebaseDen, header.timebaseNum);
    if rejected {
      return TimestampRejected(header, warnings, chunks);
    }
    return Submitted(header, warnings, chunks, frameCount);
  }

  /** The frame loop of `decodeH265IvfWithExternalDescription`, from the
      offset just past the 32-byte header: `offset` first moves past the
      12-byte record header, then past the payload; a record that is
      incomplete ends the loop, and `frameCount` ends as the number of
      chunks submitted. A complete record whose timestamp the chunk
      constructor rejects ends it with `rejected`: the chunks submitted are
      those before it. */
  method SubmitFrames(file: seq<Byte>, start: nat, timebaseDen: nat, timebaseNum: nat)
    returns (chunks: seq<H265Chunk>, frameCount: nat, rejected: bool)
    requires start == HeaderSize <= |file|
    ensures SubmittedPrefix(chunks, H265Chunks(file, timebaseDen, timebaseNum))
    ensures rejected <==> |chunks| < |H265Chunks(file, timebaseDen, timebaseNum)|
    ensures frameCount == |chunks|
  {
    var offset := start;
    frameCount := 0;
    chunks, rejected := [], false;
    ghost var head := offset;
    ghost var done: seq<Span> := [];
    while offset < |file|
      invariant head == offset <= |file|
      invariant Spans(file, HeaderSize) == done + Spans(file, offset)
      invariant frameCount == |chunks|
      invariant ChunksOfSpans(file, done, chunks, timebaseDen, timebaseNum)
      invariant forall j :: 0 <= j < |chunks| ==> FitsTimestamp(chunks[j].timestamp)
      decreases |file| - offset
    {
      if offset + FrameHeaderSize > |file| {
        break;
      }
      var frameHeader := offset;
      offset := offset + FrameHeaderSize;
      var frameSize := U32At(file, frameHeader);
      var frameNumber := U64At(file, frameHeader + 4);
      var presentationTimestampUs := PresentationTimestamp(frameNumber, timebaseDen, timebaseNum);
      if offset + frameSize > |file| {
        break;
      }
      WalkStep(file, HeaderSize, done, frameHeader, frameSize, offset + frameSize);
      var frameData := file[offset .. offset + frameSize];
      offset := offset + frameSize;
      var isKeyframe := frameCount % 30 == 0;
      var chunk := H265Chunk(isKeyframe, presentationTimestampUs, frameNumber, frameData);
      ghost var record := Span(frameHeader, frameSize);
      ChunkOfRecord(file, frameHeader, frameSize, frameCount, timebaseDen, timebaseNum);
      ChunksOfSpansSnoc(file, done, chunks, record, chunk, timebaseDen, timebaseNum);
      if !FitsTimestamp(presentationTimestampUs) {
        StopAtRejected(file, done + [record], Spans(file, offset), chunks, chunk, timebaseDen, timebaseNum);
        rejected := true;
        return;
      }
      chunks := chunks + [chunk];
      done := done + [record];
      frameCount := frameCount + 1;
      head := offset;
    }
    assert Spans(file, head) == [];
    ChunksOfWalk(file, chunks, timebaseDen, timebaseNum);
  }

  /** `chunks` are the chunks for the records `done`, one each, in order. */
  ghost predicate ChunksOfSpans(file: seq<Byte>, done: seq<Span>, chunks: seq<H265Chunk>, timebaseDen: nat, timebaseNum: nat)
  {
    && |chunks| == |done|
    && forall i :: 0 <= i < |done| ==>
         done[i].End() <= |file| && chunks[i] == ChunkAt(file, done[i], i, timebaseDen, timebaseNum)
  }

  lemma ChunksOfSpansSnoc(file: seq<Byte>, done: seq<Span>, chunks: seq<H265Chunk>, s: Span, c: H265Chunk,
                          timebaseDen: nat, timebaseNum: nat)
    requires ChunksOfSpans(file, done, chunks, timebaseDen, timebaseNum)
    requires s.End() <= |file| && c == ChunkAt(file, s, |done|, timebaseDen, timebaseNum)
    ensures ChunksOfSpans(file, done + [s], chunks + [c], timebaseDen, timebaseNum)
  {
  }

  /** The loop stopping at a rejected chunk has submitted the accepted
      prefix. */
  lemma StopAtRejected(file: seq<Byte>, done: seq<Span>, rest: seq<Span>, chunks: seq<H265Chunk>, chunk: H265Chunk,
                       timebaseDen: nat, timebaseNum: nat)
    requires Spans(file, HeaderSize) == done + rest
    requires ChunksOfSpans(file, done, chunks + [chunk], timebaseDen, timebaseNum)
    requires forall j :: 0 <= j < |chunks| ==> FitsTimestamp(chunks[j].timestamp)
    requires !FitsTimestamp(chunk.timestamp)
    ensures SubmittedPrefix(chunks, H265Chunks(file, timebaseDen, timebaseNum))
    ensures |chunks| < |H265Chunks(file, timebaseDen, timebaseNum)|
  {
    ChunksOfWalkPrefix(file, done, rest, chunks + [chunk], timebaseDen, timebaseNum);
    assert chunks == (chunks + [chunk])[..|chunks|];
  }

  /** Chunks for the first records of the walk are that many first chunks
      of `H265Chunks`. */
  lemma ChunksOfWalkPrefix(file: seq<Byte>, done: seq<Span>, rest: seq<Span>, chunks: seq<H265Chunk>,
                           timebaseDen: nat, timebaseNum: nat)
    requires Spans(file, HeaderSize) == done + rest
    requires ChunksOfSpans(file, done, chunks, timebaseDen, timebaseNum)
    ensures |chunks| <= |H265Chunks(file, timebaseDen, timebaseNum)|
    ensures chunks == H265Chunks(file, timebaseDen, timebaseNum)[..|chunks|]
  {
    var cs := H265Chunks(file, timebaseDen, timebaseNum);
    forall i | 0 <= i < |chunks| ensures chunks[i] == cs[i] {
      assert Spans(file, HeaderSize)[i] == done[i];
    }
  }

  lemma ChunksOfWalk(file: seq<Byte>, chunks: seq<H265Chunk>, timebaseDen: nat, timebaseNum: nat)
    requires ChunksOfSpans(file, Spans(file, HeaderSize), chunks, timebaseDen, timebaseNum)
    ensures chunks == H265Chunks(file, timebaseDen, timebaseNum)
  {
  }

  // ---------------------------------------------------------------------
  // Properties of the submitted chunks

  /** Chunk `i` carries the payload of the `i`-th record, whose length is
      the declared size, and that record's full 64-bit frame number, from
      which its timestamp is derived. */
  lemma {:induction false} ChunksFollowRecords(file: seq<Byte>, timebaseDen: nat, timebaseNum: nat)
    ensures var cs, sp := H265Chunks(file, timebaseDen, timebaseNum), Spans(file, HeaderSize);
            forall i :: 0 <= i < |cs| ==>
              && |cs[i].data| == U32At(file, sp[i].start)
              && cs[i].data == file[sp[i].PayloadStart() .. sp[i].End()]
              && cs[i].frameNumber == U64At(file, sp[i].start + 4)
              && cs[i].timestamp == PresentationTimestamp(cs[i].frameNumber, timebaseDen, timebaseNum)
  {
    var cs, sp := H265Chunks(file, timebaseDen, timebaseNum), Spans(file, HeaderSize);
    SpansAreRecords(file, HeaderSize);
    forall i | 0 <= i < |cs|
      ensures && |cs[i].data| == U32At(file, sp[i].start)
              && cs[i].data == file[sp[i].PayloadStart() .. sp[i].End()]
              && cs[i].frameNumber == U64At(file, sp[i].start + 4)
              && cs[i].timestamp == PresentationTimestamp(cs[i].frameNumber, timebaseDen, timebaseNum)
    {
      assert cs[i] == ChunkAt(file, sp[i], i, timebaseDen, timebaseNum);
    }
  }

  /** Chunk `i` is a key chunk exactly when its index among the parsed
      records is a multiple of 30, whatever the records contain. */
  lemma KeyChunksEvery30(file: seq<Byte>, timebaseDen: nat, timebaseNum: nat)
    ensures var cs := H265Chunks(file, timebaseDen, timebaseNum);
            forall i :: 0 <= i < |cs| ==> (cs[i].key <==> i % 30 == 0)
  {
    var cs, sp := H265Chunks(file, timebaseDen, timebaseNum), Spans(file, HeaderSize);
    forall i | 0 <= i < |cs|
      ensures cs[i].key <==> i % 30 == 0
    {
      assert cs[i] == ChunkAt(file, sp[i], i, timebaseDen, timebaseNum);
    }
  }

  /** With 95 complete records, exactly records 0, 30, 60 and 90 are key chunks. */
  lemma KeyChunksOfNinetyFive(file: seq<Byte>, timebaseDen: nat, timebaseNum: nat)
    requires |Spans(file, HeaderSize)| == 95
    ensures var cs := H265Chunks(file, timebaseDen, timebaseNum);
            (set i | 0 <= i < |cs| && cs[i].key) == {0, 30, 60, 90}
  {
    KeyChunksEvery30(file, timebaseDen, timebaseNum);
    KeySetOfNinetyFive(H265Chunks(file, timebaseDen, timebaseNum));
  }

  lemma KeySetOfNinetyFive(cs: seq<H265Chunk>)
    requires |cs| == 95
    requires forall i :: 0 <= i < |cs| ==> (cs[i].key <==> i % 30 == 0)
    ensures (set i | 0 <= i < |cs| && cs[i].key) == {0, 30, 60, 90}
  {
    var keys := set i | 0 <= i < |cs| && cs[i].key;
    assert 0 in keys && 30 in keys && 60 in keys && 90 in keys;
  }

  /** Frame parsing always begins at byte 32: bytes before it, the declared
      header length among them, do not change which chunks are found. */
  lemma ChunksIgnoreHeaderBytes(a: seq<Byte>, b: seq<Byte>, timebaseDen: nat, timebaseNum: nat)
    requires |a| == |b| >= HeaderSize && a[HeaderSize..] == b[HeaderSize..]
    ensures H265Chunks(a, timebaseDen, timebaseNum) == H265Chunks(b, timebaseDen, timebaseNum)
  {
    SpansIgnorePrefix(a, b, HeaderSize);
    var sa, sb := Spans(a, HeaderSize), Spans(b, HeaderSize);
    var ca, cb := H265Chunks(a, timebaseDen, timebaseNum), H265Chunks(b, timebaseDen, timebaseNum);
    SpansAreRecords(a, HeaderSize);
    forall i | 0 <= i < |ca|
      ensures ca[i] == cb[i]
    {
      var s := sa[i];
      SameSlice(a, b, HeaderSize, s.start + 4, s.start + 12);
      U64AtSame(a, b, s.start + 4);
      SameSlice(a, b, HeaderSize, s.PayloadStart(), s.End());
      assert ca[i] == ChunkAt(a, s, i, timebaseDen, timebaseNum);
      assert cb[i] == ChunkAt(b, s, i, timebaseDen, timebaseNum);
    }
  }

  /** Reading a written file finds every record: one chunk per record, in
      order, with its payload and its full 64-bit frame number. */
  lemma {:induction false} ReadWrittenFrames(h: HeaderFields, rs: seq<Record>)
    requires EncodableHeader(h)
    requires forall i :: 0 <= i < |rs| ==> Encodable(rs[i])
    ensures var cs := H265Chunks(HeaderBytes(h) + StreamBytes(rs), h.rate, h.scale);
            && |cs| == |rs|
            && forall i :: 0 <= i < |rs| ==>
                 cs[i] == H265Chunk(i % 30 == 0, PresentationTimestamp(rs[i].key, h.rate, h.scale), rs[i].key, rs[i].payload)
  {
    var file := HeaderBytes(h) + StreamBytes(rs);
    SpansOfStream(HeaderBytes(h), rs);
    var cs, sp := H265Chunks(file, h.rate, h.scale), Spans(file, HeaderSize);
    forall i | 0 <= i < |rs|
      ensures cs[i] == H265Chunk(i % 30 == 0, PresentationTimestamp(rs[i].key, h.rate, h.scale), rs[i].key, rs[i].payload)
    {
      assert Holds(file, sp[i], rs[i]);
    }
  }

  /** A file cut short keeps the chunks of the records that still fit, and
      only those: cut after the first `k` records and inside the next one,
      the loop submits exactly the first `k` chunks of the whole file. */
  lemma TruncatedFileKeepsEarlierChunks(file: seq<Byte>, cut: nat, k: nat, timebaseDen: nat, timebaseNum: nat)
    requires HeaderSize <= cut <= |file|
    requires k <= |Spans(file, HeaderSize)|
    requires forall i :: 0 <= i < k ==> Spans(file, HeaderSize)[i].End() <= cut
    requires k < |Spans(file, HeaderSize)| ==> cut < Spans(file, HeaderSize)[k].End()
    ensures H265Chunks(file[..cut], timebaseDen, timebaseNum) == H265Chunks(file, timebaseDen, timebaseNum)[..k]
  {
    SpansOfTruncated(file, HeaderSize, cut, k);
    var t := file[..cut];
    var sp := Spans(file, HeaderSize);
    var ct, cf := H265Chunks(t, timebaseDen, timebaseNum), H265Chunks(file, timebaseDen, timebaseNum);
    forall i | 0 <= i < k
      ensures ct[i] == cf[i]
    {
      var s := sp[i];
      assert t[s.PayloadStart() .. s.End()] == file[s.PayloadStart() .. s.End()];
      assert U64At(t, s.start + 4) == U64At(file, s.start + 4);
    }
  }

  // ---------------------------------------------------------------------
  // Timestamps the chunk constructor rejects

  /** The timestamps of the chunks, in order. */
  function Timestamps(cs: seq<H265Chunk>): (ts: seq<Num>)
    ensures |ts| == |cs|
  {
    seq(|cs|, i requires 0 <= i < |cs| => cs[i].timestamp)
  }

  /** `SubmittedPrefix` pins the submitted chunks down: they are the chunks
      before the first rejected timestamp, and all of them when none is
      rejected. */
  lemma SubmittedPrefixIsAccepted(fed: seq<H265Chunk>, cs: seq<H265Chunk>)
    ensures SubmittedPrefix(fed, cs) <==> fed == cs[..FitCount(Timestamps(cs))]
  {
    var ts := Timestamps(cs);
    FitCountStopsAtFirstRejected(ts);
    if SubmittedPrefix(fed, cs) {
      forall i | 0 <= i < |fed| ensures FitsTimestamp(ts[i]) {
        assert ts[i] == fed[i].timestamp;
      }
      FitCountIs(ts, |fed|);
    }
    if fed == cs[..FitCount(ts)] {
      forall i | 0 <= i < |fed| ensures FitsTimestamp(fed[i].timestamp) {
        assert ts[i] == fed[i].timestamp;
      }
    }
  }

  /** With a zero u32 at byte 16 every timestamp is +Infinity or NaN, so the
      constructor rejects it. */
  lemma ZeroTimebaseDenRejects(frameNumber: nat, timebaseNum: nat)
    ensures !FitsTimestamp(PresentationTimestamp(frameNumber, 0, timebaseNum))
  {
    var q := Div(Nat(0), Nat(timebaseNum));
    assert q.NaN? || q == Finite(0.0);
  }

  /** With a zero u32 at byte 16 the very first complete record throws:
      nothing is submitted. */
  lemma NothingSubmittedAtZeroTimebaseDen(file: seq<Byte>, timebaseNum: nat, fed: seq<H265Chunk>)
    requires SubmittedPrefix(fed, H265Chunks(file, 0, timebaseNum))
    ensures fed == []
  {
    var cs := H265Chunks(file, 0, timebaseNum);
    if fed != [] {
      ChunksFollowRecords(file, 0, timebaseNum);
      ZeroTimebaseDenRejects(cs[0].frameNumber, timebaseNum);
      assert false;
    }
  }

  /** A timestamp is accepted when the exact presentation time is below
      2^53 - 1 microseconds. */
  lemma PresentationTimestampFits(frameNumber: nat, timebaseDen: nat, timebaseNum: nat)
    requires timebaseDen > 0 && timebaseNum > 0
    requires PeriodsInMicroseconds(frameNumber, timebaseDen, timebaseNum) < 9_007_199_254_740_991.0
    ensures FitsTimestamp(PresentationTimestamp(frameNumber, timebaseDen, timebaseNum))
  {
    PresentationTimestampIsRounded(frameNumber, timebaseDen, timebaseNum);
  }

  /** With a positive timebase and every record's presentation time below
      2^53 - 1 microseconds, no chunk is rejected and every chunk is
      submitted. */
  lemma AllSubmittedWhenTimestampsFit(file: seq<Byte>, timebaseDen: nat, timebaseNum: nat, fed: seq<H265Chunk>)
    requires timebaseDen > 0 && timebaseNum > 0
    requires var sp := Spans(file, HeaderSize);
             forall i :: 0 <= i < |sp| ==>
               PeriodsInMicroseconds(U64At(file, sp[i].start + 4), timebaseDen, timebaseNum) < 9_007_199_254_740_991.0
    requires SubmittedPrefix(fed, H265Chunks(file, timebaseDen, timebaseNum))
    ensures fed == H265Chunks(file, timebaseDen, timebaseNum)
  {
    var cs, sp := H265Chunks(file, timebaseDen, timebaseNum), Spans(file, HeaderSize);
    if |fed| < |cs| {
      ChunksFollowRecords(file, timebaseDen, timebaseNum);
      PresentationTimestampFits(U64At(file, sp[|fed|].start + 4), timebaseDen, timebaseNum);
      assert false;
    }
  }
}
