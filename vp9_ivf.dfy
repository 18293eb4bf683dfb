/** The IVF reader of the VP9 player (vp9/playback.js): the header parse
    `parseIvfHeader`, the frame loop `parseIvfFrames`, and the loop in
    `initializeDecoder` that turns parsed frames into decoder chunks. */
module Vp9Ivf {
  import opened Bytes
  import opened JsNumber
  import opened IvfLayout

  datatype Option<T> = None | Some(value: T)

  /** "VP90" in ASCII: the only codec tag this player accepts. */
  const Vp90: seq<Byte> := [0x56, 0x50, 0x39, 0x30]

  /** What `parseIvfHeader` returns. `headerSize` is the header-length field
      exactly as declared in the file, whether or not it is 32. */
  datatype Vp9Header = Vp9Header(
    width: nat, height: nat, frameRate: Num, totalFrames: nat,
    codec: seq<Byte>, headerSize: nat)

  /** `frameRateNumerator / frameRateDenominator` as a JavaScript division:
      the exact ratio when the denominator is positive, Infinity or NaN when
      it is zero. */
  function FrameRate(numerator: nat, denominator: nat): (r: Num)
    ensures NonNeg(r)
    ensures denominator > 0 ==> r == Finite(numerator as real / denominator as real)
    ensures denominator == 0 ==> (r.NaN? <==> numerator == 0) && (r.PosInf? <==> numerator > 0)
  {
    Div(Nat(numerator), Nat(denominator))
  }

  /** `parseIvfHeader`: fails (null) exactly when the buffer is shorter than
      32 bytes, does not start with "DKIF", or does not carry "VP90" at
      bytes 8-11. A header length other than 32 does not fail: it is only
      reported, and returned as `headerSize`. */
  function ParseIvfHeader(buf: seq<Byte>): (r: Option<Vp9Header>)
    ensures r.None? <==> |buf| < HeaderSize || buf[0..4] != Signature || buf[8..12] != Vp90
    ensures r.Some? ==> r.value.headerSize == U16At(buf, 6) && r.value.codec == Vp90
    ensures r.Some? ==> NonNeg(r.value.frameRate)
  {
    if |buf| < HeaderSize then None
    else if buf[0..4] != Signature then None
    else
      var headerLength := U16At(buf, 6);
      var codec := buf[8..12];
      if codec != Vp90 then None
      else Some(Vp9Header(
        width := U16At(buf, 12),
        height := U16At(buf, 14),
        frameRate := FrameRate(U32At(buf, 16), U32At(buf, 20)),
        totalFrames := U32At(buf, 24),
        codec := codec,
        headerSize := headerLength))
  }

  /** Parsing a written header gives back its fields: width and height from
      bytes 12-15, the frame rate as the u32 at 16 over the u32 at 20, the
      frame count from 24 and the declared header length; any codec other
      than "VP90" is refused. */
  lemma ParseWrittenHeader(h: HeaderFields, rest: seq<Byte>)
    requires EncodableHeader(h)
    ensures ParseIvfHeader(HeaderBytes(h) + rest)
         == if h.fourcc == Vp90
            then Some(Vp9Header(h.width, h.height, FrameRate(h.rate, h.scale), h.frameCount, Vp90, h.headerLength))
            else None
  {
    var hb := HeaderBytes(h);
    var buf := hb + rest;
    assert buf[0..4] == hb[0..4] && buf[8..12] == hb[8..12];
    U16AtWithin(hb, rest, 6);
    U16AtWithin(hb, rest, 12);
    U16AtWithin(hb, rest, 14);
    U32AtWithin(hb, rest, 16);
    U32AtWithin(hb, rest, 20);
    U32AtWithin(hb, rest, 24);
  }

  /** One element of the array `parseIvfFrames` returns: the payload slice
      and the 32-bit timestamp field. */
  datatype Vp9Frame = Vp9Frame(data: seq<Byte>, timestamp: nat)

  /** The frame for a record found by the walk: the payload bytes and only
      the low 32 bits of the record's 64-bit timestamp. */
  function FrameAt(buf: seq<Byte>, s: Span): Vp9Frame
    requires s.End() <= |buf|
  {
    Vp9Frame(buf[s.PayloadStart() .. s.End()], U32At(buf, s.start + 4))
  }

  /** The frames `parseIvfFrames(buf, start)` returns: one per record of the
      reference walk from `start`. */
  function Vp9Frames(buf: seq<Byte>, start: nat): (r: seq<Vp9Frame>)
    ensures |r| == |Spans(buf, start)|
  {
    var sp := Spans(buf, start);
    seq(|sp|, i requires 0 <= i < |sp| => FrameAt(buf, sp[i]))
  }

  /** `parseIvfFrames`: walks the records from `startOffset`, stopping without
      error at an incomplete 12-byte header or a payload that runs past the
      end of the buffer, and returns the frames collected so far. */
  method ParseIvfFrames(buf: seq<Byte>, startOffset: nat) returns (frames: seq<Vp9Frame>)
    ensures frames == Vp9Frames(buf, startOffset)
  {
    frames := [];
    var offset := startOffset;
    ghost var done: seq<Span> := [];
    while offset < |buf|
      invariant Spans(buf, startOffset) == done + Spans(buf, offset)
      invariant |frames| == |done|
      invariant forall i :: 0 <= i < |done| ==> done[i].End() <= |buf| && frames[i] == FrameAt(buf, done[i])
      decreases |buf| - offset
    {
      if offset + FrameHeaderSize > |buf| {
        break;
      }
      var frameSize := U32At(buf, offset);
      var timestamp := U32At(buf, offset + 4);
      var frameDataStart := offset + FrameHeaderSize;
      var frameDataEnd := frameDataStart + frameSize;
      if frameDataEnd > |buf| {
        break;
      }
      WalkStep(buf, startOffset, done, offset, frameSize, frameDataEnd);
      var data := buf[frameDataStart .. frameDataEnd];
      var frame := Vp9Frame(data, timestamp);
      ghost var record := Span(offset, frameSize);
      assert record.PayloadStart() == frameDataStart && record.End() == frameDataEnd;
      assert frame == FrameAt(buf, record);
      frames := frames + [frame];
      done := done + [record];
      offset := frameDataEnd;
    }
    assert Spans(buf, offset) == [];
  }

  /** Each parsed frame is the payload of its record, whose length is the
      declared size, and its timestamp is the low 32 bits of the record's
      64-bit field. Together with `SpansAreRecords` (records in file order,
      each starting where the previous payload ends), the contract of `Spans`
      (all inside the buffer) and `WalkStopsAtIncompleteRecord`, this pins
      down the result. */
  lemma {:induction false} FramesAreRecordPayloads(buf: seq<Byte>, start: nat)
    ensures var fs, sp := Vp9Frames(buf, start), Spans(buf, start);
            forall i :: 0 <= i < |fs| ==>
              && |fs[i].data| == U32At(buf, sp[i].start)
              && fs[i].data == buf[sp[i].PayloadStart() .. sp[i].End()]
              && fs[i].timestamp == U64At(buf, sp[i].start + 4) % 0x1_0000_0000
  {
    var fs, sp := Vp9Frames(buf, start), Spans(buf, start);
    SpansAreRecords(buf, start);
    forall i | 0 <= i < |fs|
      ensures fs[i].timestamp == U64At(buf, sp[i].start + 4) % 0x1_0000_0000
    {
      U32AtIsLowHalf(buf, sp[i].start + 4);
    }
  }

  /** Parsing written records gives one frame per record, in order, with the
      record's payload and the low 32 bits of its key. */
  lemma {:induction false} ParseWrittenFrames(pre: seq<Byte>, rs: seq<Record>)
    requires forall i :: 0 <= i < |rs| ==> Encodable(rs[i])
    ensures var fs := Vp9Frames(pre + StreamBytes(rs), |pre|);
            && |fs| == |rs|
            && forall i :: 0 <= i < |rs| ==> fs[i] == Vp9Frame(rs[i].payload, rs[i].key % 0x1_0000_0000)
  {
    var buf := pre + StreamBytes(rs);
    SpansOfStream(pre, rs);
    var fs, sp := Vp9Frames(buf, |pre|), Spans(buf, |pre|);
    forall i | 0 <= i < |rs|
      ensures fs[i] == Vp9Frame(rs[i].payload, rs[i].key % 0x1_0000_0000)
    {
      assert Holds(buf, sp[i], rs[i]);
      U32AtIsLowHalf(buf, sp[i].start + 4);
    }
  }

  // ---------------------------------------------------------------------
  // Feeding the decoder

  /** An `EncodedVideoChunk` as built in `initializeDecoder`. */
  datatype Chunk = Chunk(key: bool, timestamp: Num, data: seq<Byte>)

  /** `1000 / frameRate`, milliseconds per frame. */
  function FrameDurationMs(frameRate: Num): (r: Num)
    requires NonNeg(frameRate)
    ensures NonNeg(r)
    ensures frameRate.Finite? && frameRate.v > 0.0 ==> r == Finite(1000.0 / frameRate.v)
  {
    Div(Nat(1000), frameRate)
  }

  /** `i * frameDurationMs * 1000`, microseconds, evaluated left to right. */
  function ChunkTimestamp(i: nat, frameDurationMs: Num): Num
    requires NonNeg(frameDurationMs)
  {
    Mul(Mul(Nat(i), frameDurationMs), Nat(1000))
  }

  /** The chunks `initializeDecoder` makes for the given frames, once it
      has computed the frame duration. */
  function Chunks(ivfFrames: seq<Vp9Frame>, frameDurationMs: Num): (r: seq<Chunk>)
    requires NonNeg(frameDurationMs)
    ensures |r| == |ivfFrames|
  {
    seq(|ivfFrames|, i requires 0 <= i < |ivfFrames| =>
      Chunk(i == 0, ChunkTimestamp(i, frameDurationMs), ivfFrames[i].data))
  }

  /** The timestamps of the chunks, in order. */
  function Timestamps(cs: seq<Chunk>): (ts: seq<Num>)
    ensures |ts| == |cs|
  {
    seq(|cs|, i requires 0 <= i < |cs| => cs[i].timestamp)
  }

  /** The chunks `initializeDecoder` actually hands to the decoder out of
      `cs`: those before the first chunk whose timestamp the
      `EncodedVideoChunk` constructor rejects, since that rejection throws
      out of the loop. */
  function AcceptedPrefix(cs: seq<Chunk>): (r: seq<Chunk>)
    ensures |r| <= |cs|
  {
    cs[..FitCount(Timestamps(cs))]
  }

  /** Every chunk's timestamp is accepted, so the whole feed runs. */
  predicate AllAccepted(cs: seq<Chunk>)
  {
    FitCount(Timestamps(cs)) == |cs|
  }

  /** `fed` is what a feed of `cs` that stops at the first rejected
      timestamp hands to the decoder: a prefix of `cs` whose timestamps are
      all accepted, followed in `cs` by a rejected one unless it is all of
      `cs`. */
  predicate FedPrefix(fed: seq<Chunk>, cs: seq<Chunk>)
  {
    && |fed| <= |cs|
    && fed == cs[..|fed|]
    && (forall i :: 0 <= i < |fed| ==> FitsTimestamp(fed[i].timestamp))
    && (|fed| < |cs| ==> !FitsTimestamp(cs[|fed|].timestamp))
  }

  /** `FedPrefix` pins the fed chunks down: they are exactly the accepted
      prefix. */
  lemma FedPrefixIsAcceptedPrefix(fed: seq<Chunk>, cs: seq<Chunk>)
    ensures FedPrefix(fed, cs) <==> fed == AcceptedPrefix(cs)
    ensures FedPrefix(fed, cs) ==> (|fed| == |cs| <==> AllAccepted(cs))
  {
    var ts := Timestamps(cs);
    FitCountStopsAtFirstRejected(ts);
    if FedPrefix(fed, cs) {
      forall i | 0 <= i < |fed| ensures FitsTimestamp(ts[i]) {
        assert ts[i] == fed[i].timestamp;
      }
      FitCountIs(ts, |fed|);
    }
    if fed == AcceptedPrefix(cs) {
      forall i | 0 <= i < |fed| ensures FitsTimestamp(fed[i].timestamp) {
        assert ts[i] == fed[i].timestamp;
      }
    }
  }

  /** The loop of `initializeDecoder`: the chunks it hands to the decoder, in
      call order, run along `Chunks` up to the first timestamp the
      `EncodedVideoChunk` constructor rejects, and the loop runs to
      completion exactly when every frame was fed. */
  method FeedDecoder(ivfFrames: seq<Vp9Frame>, frameDurationMs: Num) returns (submitted: seq<Chunk>, completed: bool)
    requires NonNeg(frameDurationMs)
    ensures FedPrefix(submitted, Chunks(ivfFrames, frameDurationMs))
    ensures completed <==> |submitted| == |ivfFrames|
  {
    submitted, completed := [], false;
    ghost var cs := Chunks(ivfFrames, frameDurationMs);
    for i := 0 to |ivfFrames|
      invariant submitted == cs[..i]
      invariant forall j :: 0 <= j < i ==> FitsTimestamp(submitted[j].timestamp)
    {
      var frame := ivfFrames[i];
      var timestamp := ChunkTimestamp(i, frameDurationMs);
      if !FitsTimestamp(timestamp) {
        return;
      }
      var chunk := Chunk(i == 0, timestamp, frame.data);
      assert cs[..i + 1] == submitted + [chunk];
      submitted := submitted + [chunk];
    }
    completed := true;
  }

  /** One chunk per parsed frame, in order, carrying that frame's payload;
      only the first is a key chunk; chunk `i` is stamped `i` frame
      durations after the first, so with a positive frame rate the stamps
      never decrease along the sequence. */
  lemma ChunksFollowFrames(ivfFrames: seq<Vp9Frame>, frameRate: Num)
    requires NonNeg(frameRate)
    ensures var cs := Chunks(ivfFrames, FrameDurationMs(frameRate));
            && |cs| == |ivfFrames|
            && (forall i :: 0 <= i < |cs| ==>
                 && cs[i].data == ivfFrames[i].data
                 && (cs[i].key <==> i == 0)
                 && cs[i].timestamp == ChunkTimestamp(i, FrameDurationMs(frameRate)))
            && (frameRate.Finite? && frameRate.v > 0.0 ==>
                 forall i, j :: 0 <= i <= j < |cs| ==>
                   && cs[i].timestamp.Finite? && cs[j].timestamp.Finite?
                   && cs[i].timestamp.v <= cs[j].timestamp.v)
  {
    var cs := Chunks(ivfFrames, FrameDurationMs(frameRate));
    if frameRate.Finite? && frameRate.v > 0.0 {
      forall i, j | 0 <= i <= j < |cs|
        ensures && cs[i].timestamp.Finite? && cs[j].timestamp.Finite?
                && cs[i].timestamp.v <= cs[j].timestamp.v
      {
        ChunkTimestampsFollowFrameRate(i, j, frameRate.v);
      }
    }
  }

  /** With a positive finite frame rate, chunk `i` is stamped
      `i * 1_000_000 / frameRate` microseconds, so stamps never decrease
      along the chunk sequence. */
  lemma ChunkTimestampsFollowFrameRate(i: nat, j: nat, rate: real)
    requires rate > 0.0 && i <= j
    ensures ChunkTimestamp(i, FrameDurationMs(Finite(rate))) == Finite(i as real * 1_000_000.0 / rate)
    ensures ChunkTimestamp(i, FrameDurationMs(Finite(rate))).v <= ChunkTimestamp(j, FrameDurationMs(Finite(rate))).v
  {
    StampAtRate(i, rate);
    StampsFollowDuration(i, j, FrameDurationMs(Finite(rate)));
  }

  /** With a positive finite frame rate, chunk `i` is stamped
      `i * 1_000_000 / rate` microseconds. */
  lemma StampAtRate(i: nat, rate: real)
    requires rate > 0.0
    ensures ChunkTimestamp(i, FrameDurationMs(Finite(rate))) == Finite(i as real * 1_000_000.0 / rate)
  {
    var d := 1000.0 / rate;
    assert FrameDurationMs(Finite(rate)) == Finite(d);
    assert ChunkTimestamp(i, Finite(d)) == Finite(i as real * d * 1000.0);
    DurationScaled(i as real, rate);
  }

  /** With a finite frame duration, chunk stamps are finite and never
      decrease with the chunk index. */
  lemma StampsFollowDuration(i: nat, j: nat, d: Num)
    requires d.Finite? && d.v >= 0.0 && i <= j
    ensures ChunkTimestamp(i, d).Finite? && ChunkTimestamp(j, d).Finite?
    ensures ChunkTimestamp(i, d).v <= ChunkTimestamp(j, d).v
  {
    ScaleMonotone(i as real, j as real, d.v);
    var x, y := i as real * d.v, j as real * d.v;
    ScaleMonotone(x, y, 1000.0);
    assert ChunkTimestamp(i, d) == Finite(x * 1000.0);
    assert ChunkTimestamp(j, d) == Finite(y * 1000.0);
  }

  /** `x` frames of `1000 / rate` ms each last `x * 1_000_000 / rate` microseconds. */
  lemma DurationScaled(x: real, rate: real)
    requires rate > 0.0
    ensures 1000.0 / rate > 0.0
    ensures x * (1000.0 / rate) * 1000.0 == x * 1_000_000.0 / rate
  {
    var d := 1000.0 / rate;
    assert d * rate == 1000.0;
    assert x * d * 1000.0 * rate == x * 1_000_000.0;
  }

  /** Scaling by a non-negative factor keeps the order. */
  lemma ScaleMonotone(x: real, y: real, k: real)
    requires x <= y && k >= 0.0
    ensures x * k <= y * k
  {
    assert y * k - x * k == (y - x) * k;
    assert (y - x) * k >= 0.0;
  }

  /** With a zero frame-rate numerator and a positive denominator
      (frame rate 0), every chunk after the first is stamped +Infinity and
      the first NaN: `0 * Infinity`. */
  lemma ChunkTimestampsAtZeroRate(i: nat, denominator: nat)
    requires denominator > 0
    ensures var d := FrameDurationMs(FrameRate(0, denominator));
            (i == 0 ==> ChunkTimestamp(i, d).NaN?) && (i > 0 ==> ChunkTimestamp(i, d).PosInf?)
  {
  }

  /** When every chunk's timestamp is accepted, the whole sequence is fed. */
  lemma AcceptedPrefixWhenAllFit(cs: seq<Chunk>)
    requires forall i :: 0 <= i < |cs| ==> FitsTimestamp(cs[i].timestamp)
    ensures AcceptedPrefix(cs) == cs
  {
    var ts := Timestamps(cs);
    forall i | 0 <= i < |ts| ensures FitsTimestamp(ts[i]) {
      assert ts[i] == cs[i].timestamp;
    }
    FitCountIs(ts, |ts|);
  }

  /** When the first chunk's timestamp is rejected, nothing is fed. */
  lemma AcceptedPrefixWhenFirstRejected(cs: seq<Chunk>)
    requires cs != [] ==> !FitsTimestamp(cs[0].timestamp)
    ensures AcceptedPrefix(cs) == []
  {
    var ts := Timestamps(cs);
    if cs != [] {
      assert ts[0] == cs[0].timestamp;
    }
    FitCountIs(ts, 0);
  }

  /** At frame rate 0 (a zero numerator over a positive denominator) the
      first chunk is already rejected, so nothing is fed. */
  lemma NothingFedAtZeroRate(ivfFrames: seq<Vp9Frame>, denominator: nat)
    requires denominator > 0
    ensures AcceptedPrefix(Chunks(ivfFrames, FrameDurationMs(FrameRate(0, denominator)))) == []
  {
    var cs := Chunks(ivfFrames, FrameDurationMs(FrameRate(0, denominator)));
    if cs != [] {
      ChunkTimestampsAtZeroRate(0, denominator);
    }
    AcceptedPrefixWhenFirstRejected(cs);
  }

  /** At an infinite frame rate (a zero denominator) every frame lasts 0 ms,
      every chunk is stamped 0 and all of them are fed. */
  lemma AllFedAtInfiniteRate(ivfFrames: seq<Vp9Frame>)
    ensures AcceptedPrefix(Chunks(ivfFrames, FrameDurationMs(PosInf))) == Chunks(ivfFrames, FrameDurationMs(PosInf))
  {
    var d := FrameDurationMs(PosInf);
    assert d == Finite(0.0);
    var cs := Chunks(ivfFrames, d);
    forall i | 0 <= i < |cs|
      ensures FitsTimestamp(cs[i].timestamp)
    {
      assert Mul(Nat(i), d) == Finite(0.0);
    }
    AcceptedPrefixWhenAllFit(cs);
  }

  /** At a positive frame rate every frame is fed as long as the last
      frame's stamp stays below 2^53 microseconds. */
  lemma AllFedAtPositiveRate(ivfFrames: seq<Vp9Frame>, rate: real)
    requires rate > 0.0
    requires |ivfFrames| > 0 ==> (|ivfFrames| - 1) as real * 1_000_000.0 / rate < 9_007_199_254_740_992.0
    ensures AcceptedPrefix(Chunks(ivfFrames, FrameDurationMs(Finite(rate)))) == Chunks(ivfFrames, FrameDurationMs(Finite(rate)))
  {
    var cs := Chunks(ivfFrames, FrameDurationMs(Finite(rate)));
    var n := |ivfFrames|;
    if n > 0 {
      ChunkTimestampsFollowFrameRate(n - 1, n - 1, rate);
      forall i | 0 <= i < |cs|
        ensures FitsTimestamp(cs[i].timestamp)
      {
        ChunkTimestampsFollowFrameRate(i, n - 1, rate);
      }
    }
    AcceptedPrefixWhenAllFit(cs);
  }
}
