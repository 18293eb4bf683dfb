/** The IVF container layout shared by both readers: a 32-byte file header
    beginning with "DKIF", then frame records, each a 12-byte header (payload
    size as u32 LE at +0, frame number / timestamp as u64 LE at +4) followed
    by the payload.

    `Spans` is the reference walk over the records that both readers are
    proved against. The writer half (`HeaderBytes`, `RecordBytes`,
    `StreamBytes`) exists only to state round trips: neither player writes
    IVF. */
module IvfLayout {
  import opened Bytes

  const HeaderSize: nat := 32
  const FrameHeaderSize: nat := 12

  /** "DKIF" in ASCII. */
  const Signature: seq<Byte> := [0x44, 0x4B, 0x49, 0x46]

  /** A frame record located in a buffer: its 12-byte header starts at
      `start` and its payload of `size` bytes follows that header. */
  datatype Span = Span(start: nat, size: nat) {
    function PayloadStart(): nat { start + FrameHeaderSize }
    function End(): nat { start + FrameHeaderSize + size }
  }

  /** The records found from `offset` on: a record is taken when its 12-byte
      header and its whole declared payload lie inside the buffer, and the
      walk stops at the first record for which either does not. Every record
      lies inside the buffer. */
  function Spans(buf: seq<Byte>, offset: nat): (r: seq<Span>)
    decreases |buf| - offset
    ensures forall i :: 0 <= i < |r| ==> r[i].End() <= |buf|
  {
    if offset + FrameHeaderSize > |buf| then []
    else
      var size := U32At(buf, offset);
      if offset + FrameHeaderSize + size > |buf| then []
      else [Span(offset, size)] + Spans(buf, offset + FrameHeaderSize + size)
  }

  /** The records of the walk are back to back and in file order: the first
      starts at `offset`, each next one where the previous payload ends, and
      each has the size its header declares. */
  lemma {:induction false} SpansAreRecords(buf: seq<Byte>, offset: nat)
    decreases |buf| - offset
    ensures var r := Spans(buf, offset);
            && (|r| > 0 ==> r[0].start == offset)
            && (forall i :: 0 < i < |r| ==> r[i].start == r[i - 1].End())
            && (forall i :: 0 <= i < |r| ==> offset <= r[i].start && r[i].size == U32At(buf, r[i].start))
  {
    var r := Spans(buf, offset);
    if r != [] {
      var next := offset + FrameHeaderSize + U32At(buf, offset);
      var rest := Spans(buf, next);
      SpansAreRecords(buf, next);
      assert r == [Span(offset, U32At(buf, offset))] + rest;
      forall i | 0 < i < |r|
        ensures r[i].start == r[i - 1].End()
      {
        assert r[i] == rest[i - 1];
      }
    }
  }

  /** A complete record at `offset` is taken, and the walk goes on right
      after its payload. */
  lemma SpansStep(buf: seq<Byte>, offset: nat, size: nat, next: nat)
    requires offset + FrameHeaderSize <= |buf| && size == U32At(buf, offset)
    requires next == offset + FrameHeaderSize + size <= |buf|
    ensures Spans(buf, offset) == [Span(offset, size)] + Spans(buf, next)
  {
  }

  /** One step of a loop that follows the walk: when the records found so
      far, `done`, are followed by the walk from `offset` and a complete
      record sits at `offset`, then appending that record leaves the walk
      from just past its payload still to go. */
  lemma WalkStep(buf: seq<Byte>, start: nat, done: seq<Span>, offset: nat, size: nat, next: nat)
    requires Spans(buf, start) == done + Spans(buf, offset)
    requires offset + FrameHeaderSize <= |buf| && size == U32At(buf, offset)
    requires next == offset + FrameHeaderSize + size <= |buf|
    ensures Spans(buf, start) == (done + [Span(offset, size)]) + Spans(buf, next)
  {
    var rest := Spans(buf, next);
    SpansStep(buf, offset, size, next);
    assert (done + [Span(offset, size)]) + rest == done + ([Span(offset, size)] + rest);
  }

  /** Where the walk from `offset` stops: the end of the last record taken. */
  function WalkEnd(buf: seq<Byte>, offset: nat): nat
  {
    var sp := Spans(buf, offset);
    if sp == [] then offset else sp[|sp| - 1].End()
  }

  /** The walk stops only where a record is incomplete: fewer than 12 bytes
      remain, or the declared payload runs past the end of the buffer. */
  lemma {:induction false} WalkStopsAtIncompleteRecord(buf: seq<Byte>, offset: nat)
    decreases |buf| - offset
    ensures var e := WalkEnd(buf, offset);
            e + FrameHeaderSize > |buf| || e + FrameHeaderSize + U32At(buf, e) > |buf|
  {
    if offset + FrameHeaderSize <= |buf| {
      var size := U32At(buf, offset);
      if offset + FrameHeaderSize + size <= |buf| {
        var next := offset + FrameHeaderSize + size;
        WalkStopsAtIncompleteRecord(buf, next);
        var sp := Spans(buf, offset);
        assert sp == [Span(offset, size)] + Spans(buf, next);
        assert WalkEnd(buf, offset) == WalkEnd(buf, next);
      }
    }
  }

  /** The walk reads nothing before `offset`: bytes there do not matter. */
  lemma {:induction false} SpansIgnorePrefix(a: seq<Byte>, b: seq<Byte>, offset: nat)
    requires |a| == |b| && offset <= |a| && a[offset..] == b[offset..]
    decreases |a| - offset
    ensures Spans(a, offset) == Spans(b, offset)
  {
    if offset + FrameHeaderSize <= |a| {
      SameAt(a, b, offset, offset);
      SameAt(a, b, offset, offset + 1);
      SameAt(a, b, offset, offset + 2);
      SameAt(a, b, offset, offset + 3);
      var next := offset + FrameHeaderSize + U32At(a, offset);
      if next <= |a| {
        assert a[next..] == a[offset..][next - offset..];
        assert b[next..] == b[offset..][next - offset..];
        SpansIgnorePrefix(a, b, next);
      }
    }
  }

  /** Cutting the buffer short keeps exactly the records that still fit:
      if the cut lies after the end of the first `k` records and before the
      end of the next one, the walk over the cut buffer finds those `k`. */
  lemma {:induction false} SpansOfTruncated(buf: seq<Byte>, offset: nat, cut: nat, k: nat)
    requires offset <= cut <= |buf|
    requires k <= |Spans(buf, offset)|
    requires forall i :: 0 <= i < k ==> Spans(buf, offset)[i].End() <= cut
    requires k < |Spans(buf, offset)| ==> cut < Spans(buf, offset)[k].End()
    decreases k
    ensures Spans(buf[..cut], offset) == Spans(buf, offset)[..k]
  {
    var sp, t := Spans(buf, offset), buf[..cut];
    if sp != [] {
      assert sp[0] == Span(offset, U32At(buf, offset));
    }
    if offset + FrameHeaderSize <= cut {
      var size := U32At(buf, offset);
      assert U32At(t, offset) == size;
      var next := offset + FrameHeaderSize + size;
      if k == 0 {
        assert Spans(t, offset) == [];
      } else {
        var rest := Spans(buf, next);
        assert sp == [Span(offset, size)] + rest;
        assert next <= cut by {
          assert sp[0].End() <= cut;
        }
        forall i | 0 <= i < k - 1
          ensures rest[i].End() <= cut
        {
          assert rest[i] == sp[i + 1];
        }
        assert k - 1 < |rest| ==> cut < rest[k - 1].End() by {
          if k - 1 < |rest| {
            assert rest[k - 1] == sp[k];
          }
        }
        SpansOfTruncated(buf, next, cut, k - 1);
        assert Spans(t, offset) == [Span(offset, size)] + Spans(t, next);
        assert sp[..k] == [sp[0]] + rest[..k - 1];
      }
    }
  }

  /** Sequences equal from `from` on agree on every slice after `from`. */
  lemma SameSlice(a: seq<Byte>, b: seq<Byte>, from: nat, lo: nat, hi: nat)
    requires |a| == |b| && from <= lo <= hi <= |a| && a[from..] == b[from..]
    ensures a[lo..hi] == b[lo..hi]
  {
    forall k | lo <= k < hi
      ensures a[k] == b[k]
    {
      assert a[k] == a[from..][k - from];
      assert b[k] == b[from..][k - from];
    }
  }

  lemma SameAt(a: seq<Byte>, b: seq<Byte>, offset: nat, k: nat)
    requires |a| == |b| && offset <= k < |a| && a[offset..] == b[offset..]
    ensures a[k] == b[k]
  {
    assert a[k] == a[offset..][k - offset];
  }

  // ---------------------------------------------------------------------
  // Writer half, for round trips only.

  /** The fields of the 32-byte file header, in file order. Bytes 16-19 and
      20-23 are kept under libvpx's names: `rate` and `scale`; bytes 28-31
      are reserved and may hold anything. */
  datatype HeaderFields = HeaderFields(
    version: nat, headerLength: nat, fourcc: seq<Byte>,
    width: nat, height: nat, rate: nat, scale: nat, frameCount: nat, reserved: seq<Byte>)

  predicate EncodableHeader(h: HeaderFields) {
    && h.version < Two16 && h.headerLength < Two16 && |h.fourcc| == 4
    && h.width < Two16 && h.height < Two16
    && h.rate < Two32 && h.scale < Two32 && h.frameCount < Two32
    && |h.reserved| == 4
  }

  /** The 32 header bytes; each field reads back from its offset. */
  function HeaderBytes(h: HeaderFields): (s: seq<Byte>)
    requires EncodableHeader(h)
    ensures |s| == HeaderSize
    ensures s[0..4] == Signature && s[8..12] == h.fourcc
    ensures U16At(s, 4) == h.version && U16At(s, 6) == h.headerLength
    ensures U16At(s, 12) == h.width && U16At(s, 14) == h.height
    ensures U32At(s, 16) == h.rate && U32At(s, 20) == h.scale && U32At(s, 24) == h.frameCount
    ensures s[28..32] == h.reserved
  {
    var a := Signature + Le16(h.version) + Le16(h.headerLength) + h.fourcc;
    var b := Le16(h.width) + Le16(h.height);
    var c := Le32(h.rate) + Le32(h.scale) + Le32(h.frameCount) + h.reserved;
    var s := a + b + c;
    HeaderHeadReads(h);
    HeaderSizeReads(h.width, h.height);
    HeaderTailReads(h);
    U16AtWithin(a, b + c, 4);
    U16AtWithin(a, b + c, 6);
    assert s == a + (b + c);
    U16AtAfter(a, b + c, 0);
    U16AtAfter(a, b + c, 2);
    U16AtWithin(b, c, 0);
    U16AtWithin(b, c, 2);
    assert s == (a + b) + c;
    U32AtAfter(a + b, c, 0);
    U32AtAfter(a + b, c, 4);
    U32AtAfter(a + b, c, 8);
    s
  }

  /** Bytes 0-11 of the header: signature, version, header length, fourcc. */
  lemma HeaderHeadReads(h: HeaderFields)
    requires EncodableHeader(h)
    ensures var a := Signature + Le16(h.version) + Le16(h.headerLength) + h.fourcc;
            && |a| == 12 && a[0..4] == Signature && a[8..12] == h.fourcc
            && U16At(a, 4) == h.version && U16At(a, 6) == h.headerLength
  {
    U16AtAfter(Signature, Le16(h.version) + Le16(h.headerLength) + h.fourcc, 0);
    U16AtAfter(Signature + Le16(h.version), Le16(h.headerLength) + h.fourcc, 0);
    U16AtWithin(Le16(h.version) + Le16(h.headerLength) + h.fourcc, [], 0);
    U16AtWithin(Le16(h.headerLength) + h.fourcc, [], 0);
  }

  /** Bytes 12-15 of the header: width and height. */
  lemma HeaderSizeReads(width: nat, height: nat)
    requires width < Two16 && height < Two16
    ensures var b := Le16(width) + Le16(height);
            |b| == 4 && U16At(b, 0) == width && U16At(b, 2) == height
  {
    U16AtWithin(Le16(width), Le16(height), 0);
    U16AtAfter(Le16(width), Le16(height), 0);
  }

  /** Bytes 16-31 of the header: rate, scale, frame count, reserved. */
  lemma HeaderTailReads(h: HeaderFields)
    requires EncodableHeader(h)
    ensures var c := Le32(h.rate) + Le32(h.scale) + Le32(h.frameCount) + h.reserved;
            && |c| == 16 && c[12..16] == h.reserved
            && U32At(c, 0) == h.rate && U32At(c, 4) == h.scale && U32At(c, 8) == h.frameCount
  {
    var r, sc, f := Le32(h.rate), Le32(h.scale), Le32(h.frameCount);
    U32AtWithin(r, sc + f + h.reserved, 0);
    assert r + sc + f + h.reserved == r + (sc + f + h.reserved);
    U32AtAfter(r, sc, 0);
    U32AtAfter(r + sc, f, 0);
    U32AtWithin(r + sc, f + h.reserved, 4);
    assert r + sc + f + h.reserved == (r + sc) + (f + h.reserved);
    U32AtWithin(r + sc + f, h.reserved, 8);
  }

  /** One frame record to write: its frame number / timestamp key and payload. */
  datatype Record = Record(key: nat, payload: seq<Byte>)

  predicate Encodable(r: Record) {
    r.key < Two64 && |r.payload| < Two32
  }

  /** The bytes of one record; its header reads back as the payload length
      and the key, and the payload follows it. */
  function RecordBytes(r: Record): (s: seq<Byte>)
    requires Encodable(r)
    ensures |s| == FrameHeaderSize + |r.payload|
    ensures U32At(s, 0) == |r.payload| && U64At(s, 4) == r.key
    ensures s[FrameHeaderSize..] == r.payload
  {
    var s := Le32(|r.payload|) + Le64(r.key) + r.payload;
    U32AtWithin(Le32(|r.payload|), Le64(r.key) + r.payload, 0);
    assert s == Le32(|r.payload|) + (Le64(r.key) + r.payload);
    U64AtAfter(Le32(|r.payload|), Le64(r.key) + r.payload, 0);
    U64AtWithin(Le64(r.key), r.payload, 0);
    s
  }

  /** The bytes of a sequence of records, back to back. */
  function StreamBytes(rs: seq<Record>): seq<Byte>
    requires forall i :: 0 <= i < |rs| ==> Encodable(rs[i])
  {
    if rs == [] then [] else RecordBytes(rs[0]) + StreamBytes(rs[1..])
  }

  /** Reading a written record: the walk takes it whole and moves on to
      the byte after its payload. */
  lemma {:induction false} SpansOverRecord(pre: seq<Byte>, r: Record, rest: seq<Byte>)
    requires Encodable(r)
    ensures var buf := pre + RecordBytes(r) + rest;
            var o, n := |pre|, |r.payload|;
            && Spans(buf, o) == [Span(o, n)] + Spans(buf, |pre + RecordBytes(r)|)
            && Holds(buf, Span(o, n), r)
  {
    var rb := RecordBytes(r);
    var buf := pre + rb + rest;
    var o, n := |pre|, |r.payload|;
    assert buf == pre + (rb + rest);
    assert U32At(buf, o) == n by {
      U32AtWithin(rb, rest, 0);
      U32AtAfter(pre, rb + rest, 0);
    }
    SpansStep(buf, o, n, |pre + rb|);
    assert Holds(buf, Span(o, n), r) by {
      U64AtWithin(rb, rest, 4);
      U64AtAfter(pre, rb + rest, 4);
      assert buf[o + FrameHeaderSize .. o + FrameHeaderSize + n] == rb[FrameHeaderSize..];
    }
  }

  /** The span `s` of `buf` holds the record `r`: its payload length,
      payload bytes and key. */
  ghost predicate Holds(buf: seq<Byte>, s: Span, r: Record)
  {
    && s.End() <= |buf|
    && s.size == |r.payload|
    && buf[s.PayloadStart() .. s.End()] == r.payload
    && U64At(buf, s.start + 4) == r.key
  }

  /** `sp` locates the records `rs` in `buf`, one span per record, in order. */
  ghost predicate Locates(buf: seq<Byte>, sp: seq<Span>, rs: seq<Record>)
  {
    |sp| == |rs| && forall i {:trigger Holds(buf, sp[i], rs[i])} :: 0 <= i < |sp| ==> Holds(buf, sp[i], rs[i])
  }

  /** Walking a written stream finds exactly the written records: one span
      per record, in order, each with the record's payload and key. */
  lemma {:induction false} SpansOfStream(pre: seq<Byte>, rs: seq<Record>)
    requires forall i :: 0 <= i < |rs| ==> Encodable(rs[i])
    decreases |rs|
    ensures Locates(pre + StreamBytes(rs), Spans(pre + StreamBytes(rs), |pre|), rs)
  {
    var buf := pre + StreamBytes(rs);
    if rs == [] {
      assert buf == pre;
      assert Spans(buf, |pre|) == [];
    } else {
      var r, tail := rs[0], rs[1..];
      assert forall i :: 0 <= i < |tail| ==> Encodable(tail[i]) by {
        forall i | 0 <= i < |tail|
          ensures Encodable(tail[i])
        {
          assert tail[i] == rs[i + 1];
        }
      }
      var rest := StreamBytes(tail);
      var pre' := pre + RecordBytes(r);
      assert buf == pre' + rest;
      SpansOfStream(pre', tail);
      LocatesOverRecord(pre, r, rest, tail);
      assert rs == [r] + tail;
    }
  }

  /** A record written in front of located records extends the location
      by its own span. */
  lemma LocatesOverRecord(pre: seq<Byte>, r: Record, rest: seq<Byte>, tail: seq<Record>)
    requires Encodable(r)
    requires var buf := pre + RecordBytes(r) + rest;
             Locates(buf, Spans(buf, |pre + RecordBytes(r)|), tail)
    ensures var buf := pre + RecordBytes(r) + rest;
            Locates(buf, Spans(buf, |pre|), [r] + tail)
  {
    var buf := pre + RecordBytes(r) + rest;
    SpansOverRecord(pre, r, rest);
    LocatesCons(buf, Span(|pre|, |r.payload|), Spans(buf, |pre + RecordBytes(r)|), r, tail);
  }

  lemma LocatesCons(buf: seq<Byte>, s: Span, sp: seq<Span>, r: Record, rs: seq<Record>)
    requires Locates(buf, sp, rs) && Holds(buf, s, r)
    ensures Locates(buf, [s] + sp, [r] + rs)
  {
    var sp2, rs2 := [s] + sp, [r] + rs;
    forall i | 0 < i < |sp2|
      ensures Holds(buf, sp2[i], rs2[i])
    {
      assert sp2[i] == sp[i - 1] && rs2[i] == rs[i - 1];
    }
  }
}
