/** JavaScript number arithmetic as the IVF players use it: only on
    non-negative operands (unsigned header fields, indices, frame rates), so a
    value is an exact non-negative rational, +Infinity or NaN. Division by
    zero and `0 * Infinity` follow IEEE 754; the rounding of finite doubles
    to 53 bits is not modelled. */
module JsNumber {

  datatype Num = Finite(v: real) | PosInf | NaN

  /** The values the players can produce: never negative. */
  predicate NonNeg(x: Num) {
    x.Finite? ==> x.v >= 0.0
  }

  function Nat(n: nat): (r: Num)
    ensures NonNeg(r) && r.Finite? && r.v == n as real
  {
    Finite(n as real)
  }

  /** `a / b` for non-negative operands. */
  function Div(a: Num, b: Num): (r: Num)
    requires NonNeg(a) && NonNeg(b)
    ensures NonNeg(r)
    ensures r.Finite? <==> a.Finite? && ((b.Finite? && b.v != 0.0) || b.PosInf?)
    ensures r.Finite? && b.Finite? ==> r.v * b.v == a.v
    ensures r.NaN? <==> a.NaN? || b.NaN? || (a == Finite(0.0) && b == Finite(0.0)) || (a.PosInf? && b.PosInf?)
    ensures a.Finite? && b.PosInf? ==> r == Finite(0.0)
  {
    if a.NaN? || b.NaN? then NaN
    else if b.PosInf? then (if a.PosInf? then NaN else Finite(0.0))
    else if a.PosInf? then PosInf
    else if b.v != 0.0 then Finite(a.v / b.v)
    else if a.v == 0.0 then NaN else PosInf
  }

  /** `a * b` for non-negative operands. */
  function Mul(a: Num, b: Num): (r: Num)
    requires NonNeg(a) && NonNeg(b)
    ensures NonNeg(r)
    ensures r.Finite? <==> a.Finite? && b.Finite?
    ensures r.Finite? ==> r.v == a.v * b.v
    ensures r.NaN? <==> a.NaN? || b.NaN? || (a == Finite(0.0) && b.PosInf?) || (a.PosInf? && b == Finite(0.0))
  {
    if a.NaN? || b.NaN? then NaN
    else if a.Finite? && b.Finite? then Finite(a.v * b.v)
    else if a == Finite(0.0) || b == Finite(0.0) then NaN
    else PosInf
  }

  /** `Math.round`: the nearest integer, halves rounded up; Infinity and NaN
      pass through. */
  function Round(a: Num): (r: Num)
    requires NonNeg(a)
    ensures NonNeg(r)
    ensures r.Finite? <==> a.Finite?
    ensures a.PosInf? ==> r.PosInf?
    ensures a.NaN? ==> r.NaN?
    ensures r.Finite? ==> Whole(r.v) && a.v - 0.5 < r.v <= a.v + 0.5
  {
    if a.Finite? then Finite((a.v + 0.5).Floor as real) else a
  }

  /** `x >= t` where `x` is a finite (possibly negative) real: false against
      Infinity and against NaN. */
  predicate AtLeast(x: real, t: Num) {
    t.Finite? && x >= t.v
  }

  /** `x` is an integer. */
  predicate Whole(x: real) {
    x == x.Floor as real
  }

  /** Web IDL's `[EnforceRange] long long` conversion, which the
      `EncodedVideoChunk` constructor applies to its `timestamp`, accepts a
      non-negative number exactly when it is finite and its integer part is
      at most 2^53 - 1; otherwise the constructor throws a `TypeError`. */
  predicate FitsTimestamp(t: Num) {
    t.Finite? && t.v < 9_007_199_254_740_992.0
  }

  /** How many of the timestamps, taken in order, are accepted before the
      first one that is rejected: all of them when none is. */
  function FitCount(ts: seq<Num>): (k: nat)
    ensures k <= |ts|
  {
    if ts == [] || !FitsTimestamp(ts[0]) then 0 else 1 + FitCount(ts[1..])
  }

  /** Every timestamp before position `FitCount(ts)` is accepted, and the
      one at that position, if any, is rejected. */
  lemma {:induction false} FitCountStopsAtFirstRejected(ts: seq<Num>)
    ensures forall i :: 0 <= i < FitCount(ts) ==> FitsTimestamp(ts[i])
    ensures FitCount(ts) < |ts| ==> !FitsTimestamp(ts[FitCount(ts)])
  {
    if ts != [] && FitsTimestamp(ts[0]) {
      FitCountStopsAtFirstRejected(ts[1..]);
      forall i | 0 < i < FitCount(ts)
        ensures FitsTimestamp(ts[i])
      {
        assert ts[i] == ts[1..][i - 1];
      }
    }
  }

  /** `FitCount` is the one count with every earlier timestamp accepted and
      the one at that position (if any) rejected. */
  lemma FitCountIs(ts: seq<Num>, k: nat)
    requires k <= |ts|
    requires forall i :: 0 <= i < k ==> FitsTimestamp(ts[i])
    requires k < |ts| ==> !FitsTimestamp(ts[k])
    ensures FitCount(ts) == k
  {
    FitCountStopsAtFirstRejected(ts);
  }
}
