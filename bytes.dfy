/** Bytes and the little-endian integer reads the IVF readers perform through
    `DataView.getUint16/getUint32/getBigUint64(offset, true)`, together with
    the matching encoders, so that every read has a stated inverse. */
module Bytes {

  type Byte = b: int | 0 <= b < 256

  const Two16: nat := 0x1_0000
  const Two32: nat := 0x1_0000_0000
  const Two64: nat := 0x1_0000_0000_0000_0000

  /** Unsigned 16-bit little-endian value at byte offset `o`. */
  function U16At(b: seq<Byte>, o: nat): (r: nat)
    requires o + 2 <= |b|
    ensures r < Two16
  {
    b[o] as int + 256 * b[o + 1] as int
  }

  /** Unsigned 32-bit little-endian value at byte offset `o`: the low half
      first, then the high half. */
  function U32At(b: seq<Byte>, o: nat): (r: nat)
    requires o + 4 <= |b|
    ensures r < Two32
  {
    U16At(b, o) + 0x1_0000 * U16At(b, o + 2)
  }

  /** Unsigned 64-bit little-endian value at byte offset `o`. */
  function U64At(b: seq<Byte>, o: nat): (r: nat)
    requires o + 8 <= |b|
    ensures r < Two64
  {
    U32At(b, o) + 0x1_0000_0000 * U32At(b, o + 4)
  }

  /** The 64-bit read depends only on the eight bytes it covers. */
  lemma U64AtSame(a: seq<Byte>, b: seq<Byte>, o: nat)
    requires o + 8 <= |a| && o + 8 <= |b| && a[o..o + 8] == b[o..o + 8]
    ensures U64At(a, o) == U64At(b, o)
  {
    forall k | o <= k < o + 8
      ensures a[k] == b[k]
    {
      assert a[k] == a[o..o + 8][k - o];
      assert b[k] == b[o..o + 8][k - o];
    }
  }

  /** The 32-bit read is the four-byte little-endian sum. */
  lemma U32AtBytes(b: seq<Byte>, o: nat)
    requires o + 4 <= |b|
    ensures U32At(b, o) == b[o] as int + 0x100 * b[o + 1] as int + 0x1_0000 * b[o + 2] as int + 0x100_0000 * b[o + 3] as int
  {
  }

  /** Reading only 32 bits at the start of a 64-bit field yields its low 32 bits. */
  lemma {:induction false} U32AtIsLowHalf(b: seq<Byte>, o: nat)
    requires o + 8 <= |b|
    ensures U32At(b, o) == U64At(b, o) % 0x1_0000_0000
  {
    var lo, hi := U32At(b, o), U32At(b, o + 4);
    assert U64At(b, o) == lo + 0x1_0000_0000 * hi;
    LowPart(lo, hi, Two32);
  }

  /** Splitting `lo + m * hi` by `m` recovers both halves (for the three widths used). */
  lemma LowPart(lo: nat, hi: nat, m: nat)
    requires m == 256 || m == Two16 || m == Two32
    requires lo < m
    ensures (lo + m * hi) % m == lo && (lo + m * hi) / m == hi
  {
  }

  /** Little-endian encoding of a 16-bit value; reading it back gives the value. */
  function Le16(x: nat): (r: seq<Byte>)
    requires x < Two16
    ensures |r| == 2 && U16At(r, 0) == x
  {
    [x % 256, x / 256]
  }

  /** Little-endian encoding of a 32-bit value; reading it back gives the value. */
  function Le32(x: nat): (r: seq<Byte>)
    requires x < Two32
    ensures |r| == 4 && U32At(r, 0) == x
  {
    var r := Le16(x % 0x1_0000) + Le16(x / 0x1_0000);
    assert U16At(r, 0) == U16At(Le16(x % 0x1_0000), 0);
    assert U16At(r, 2) == U16At(Le16(x / 0x1_0000), 0);
    r
  }

  /** Little-endian encoding of a 64-bit value; reading it back gives the value. */
  function Le64(x: nat): (r: seq<Byte>)
    requires x < Two64
    ensures |r| == 8 && U64At(r, 0) == x
  {
    var r := Le32(x % 0x1_0000_0000) + Le32(x / 0x1_0000_0000);
    U32AtWithin(Le32(x % 0x1_0000_0000), Le32(x / 0x1_0000_0000), 0);
    U32AtAfter(Le32(x % 0x1_0000_0000), Le32(x / 0x1_0000_0000), 0);
    r
  }

  /** Encoding what was read gives back the bytes read: the reads are onto. */
  lemma {:induction false} Le32OfU32At(b: seq<Byte>, o: nat)
    requires o + 4 <= |b|
    ensures Le32(U32At(b, o)) == b[o .. o + 4]
  {
    var x := U32At(b, o);
    var lo, hi := U16At(b, o), U16At(b, o + 2);
    LowPart(lo, hi, Two16);
    assert x % 0x1_0000 == lo && x / 0x1_0000 == hi;
    LowPart(b[o], b[o + 1], 256);
    LowPart(b[o + 2], b[o + 3], 256);
    assert Le16(lo) == b[o .. o + 2];
    assert Le16(hi) == b[o + 2 .. o + 4];
  }

  /** A read depends only on the bytes it covers: reads inside a prefix ... */
  lemma U32AtWithin(p: seq<Byte>, q: seq<Byte>, o: nat)
    requires o + 4 <= |p|
    ensures U32At(p + q, o) == U32At(p, o)
  {
  }

  /** ... and reads inside a suffix are unaffected by what precedes it. */
  lemma U32AtAfter(p: seq<Byte>, q: seq<Byte>, o: nat)
    requires o + 4 <= |q|
    ensures U32At(p + q, |p| + o) == U32At(q, o)
  {
  }

  lemma U16AtAfter(p: seq<Byte>, q: seq<Byte>, o: nat)
    requires o + 2 <= |q|
    ensures U16At(p + q, |p| + o) == U16At(q, o)
  {
  }

  lemma U64AtAfter(p: seq<Byte>, q: seq<Byte>, o: nat)
    requires o + 8 <= |q|
    ensures U64At(p + q, |p| + o) == U64At(q, o)
  {
    U32AtAfter(p, q, o);
    U32AtAfter(p, q, o + 4);
  }

  lemma U16AtWithin(p: seq<Byte>, q: seq<Byte>, o: nat)
    requires o + 2 <= |p|
    ensures U16At(p + q, o) == U16At(p, o)
  {
  }

  lemma U64AtWithin(p: seq<Byte>, q: seq<Byte>, o: nat)
    requires o + 8 <= |p|
    ensures U64At(p + q, o) == U64At(p, o)
  {
    U32AtWithin(p, q, o);
    U32AtWithin(p, q, o + 4);
  }
}
