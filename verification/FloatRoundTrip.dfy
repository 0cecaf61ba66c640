/**
 * Decoding an integer signal to a double and encoding it again, when every double
 * operation rounds as IEEE 754-2019 section 4.3.1 asks: relative error at most 2^-53,
 * plus an absolute error `eta` that accounts for gradual underflow, up to `max`.
 */
module FloatRoundTrip {
  import opened Prelude
  import Bytes
  import opened Catalog
  import opened Values

  /** 2^53: every integer up to it is a double. */
  const EXACT_INTEGERS := 9007199254740992

  /** 2^46: raw values up to it survive scaling. */
  const RAW_BOUND := 70368744177664

  /** 2^53 times an error: at most the magnitude it is relative to. */
  function Times2To53(x: real): real { x * 9007199254740992.0 }

  /** 2^50 times a magnitude. */
  function Times2To50(x: real): real { x * 1125899906842624.0 }

  /** `fp.round` is a rounding of doubles: accurate up to `max` and exact on integers up to 2^53. */
  ghost predicate RoundsLikeDoubles(fp: Fp, eta: real, max: real) {
    && (forall x :: Abs(x) <= max ==> fp.round(x).Finite? && Times2To53(Abs(fp.round(x).r - x) - eta) <= Abs(x))
    && (forall i :: -EXACT_INTEGERS <= i <= EXACT_INTEGERS ==> ExactOn(fp, i))
  }

  predicate ExactOn(fp: Fp, i: int) {
    fp.round(i as real) == Finite(i as real)
  }

  /** `x` is within `d` of `y`. */
  predicate Close(x: real, y: real, d: real) {
    -d <= x - y <= d
  }

  lemma RoundAt(fp: Fp, eta: real, max: real, x: real, ulp: real)
    requires RoundsLikeDoubles(fp, eta, max)
    requires -Times2To53(ulp) <= x <= Times2To53(ulp) && Abs(x) <= max
    ensures fp.round(x).Finite? && Close(fp.round(x).r, x, ulp + eta)
  {
    assert Times2To53(Abs(fp.round(x).r - x) - eta) <= Abs(x);
  }

  /**
   * What the catalog entry must satisfy: the offset is at most 2^50 scale steps, and the
   * scale lies far inside the range of doubles. Each conjunct can be read off the catalog.
   */
  predicate TameScaling(def: SignalDef, eta: real, max: real) {
    && def.scale.Finite? && def.offset.Finite?
    && Abs(def.offset.r) <= Times2To50(Abs(def.scale.r))
    && 0.0 <= 64.0 * eta <= Abs(def.scale.r)
    && 64.0 * eta <= 1.0
    && 4.0 * Times2To50(Abs(def.scale.r)) <= max
    && Times2To50(1.0) <= max
  }

  lemma ProductBound(x: real, k: real)
    requires -70368744177664.0 <= x <= 70368744177664.0
    ensures -70368744177664.0 * Abs(k) <= Mul(x, k) <= 70368744177664.0 * Abs(k)
  {
    ProductBounds(x, k, 70368744177664.0);
  }

  lemma ProductBounds(x: real, k: real, c: real)
    requires -c <= x <= c
    ensures -c * Abs(k) <= x * k <= c * Abs(k)
  {
  }

  lemma Scale(d: real, k: real)
    requires d > 0.0 && k > 0.0
    ensures d * k > 0.0
  {
  }

  /** A quantity that is off by at most `c` steps of size `k` is off by `c` after dividing by `k`. */
  lemma QuotientBound(p: real, i: real, k: real, c: real)
    requires k != 0.0 && Close(p, i * k, c * Abs(k))
    ensures Close(p / k, i, c)
  {
    var e := p / k - i;
    DivideMultiply(p, k);
    assert e * k == p - i * k;
    if e > c {
      Scale(e - c, Abs(k));
    } else if e < -c {
      Scale(-c - e, Abs(k));
    }
  }

  /** The error of the three operations before the division, in scale steps. */
  lemma ForwardError(fp: Fp, eta: real, max: real, rk: real, o: real, a: real) returns (p1: real, p2: real, p3: real)
    requires RoundsLikeDoubles(fp, eta, max)
    requires -70368744177664.0 * a <= rk <= 70368744177664.0 * a && -Times2To50(a) <= o <= Times2To50(a)
    requires 0.0 <= 64.0 * eta <= a && 4.0 * Times2To50(a) <= max
    ensures fp.round(rk) == Finite(p1) && fp.round(p1 + o) == Finite(p2) && fp.round(p2 - o) == Finite(p3)
    ensures Close(p3, rk, 0.375 * a)
  {
    RoundAt(fp, eta, max, rk, 0.015625 * a);
    p1 := fp.round(rk).r;
    RoundAt(fp, eta, max, p1 + o, 0.25 * a);
    p2 := fp.round(p1 + o).r;
    RoundAt(fp, eta, max, p2 - o, 0.015625 * a);
    p3 := fp.round(p2 - o).r;
  }

  lemma RoundRecovers(x: real, i: int)
    requires Close(x, i as real, 0.4921875)
    ensures RoundHalfAway(x) == i
  {
  }

  lemma FinalRounding(fp: Fp, eta: real, max: real, q: real, i: int)
    requires RoundsLikeDoubles(fp, eta, max) && Times2To50(1.0) <= max && 0.0 <= 64.0 * eta <= 1.0
    requires Close(q, i as real, 0.375) && -RAW_BOUND <= i <= RAW_BOUND
    ensures fp.round(q).Finite? && RoundHalfAway(fp.round(q).r) == i
  {
    RoundAt(fp, eta, max, q, 0.015625);
    RoundRecovers(fp.round(q).r, i);
  }

  lemma DivisionRecovers(fp: Fp, eta: real, max: real, p3: real, i: int, k: real)
    requires RoundsLikeDoubles(fp, eta, max) && Times2To50(1.0) <= max && 0.0 <= 64.0 * eta <= 1.0
    requires k != 0.0 && Close(p3, Mul(i as real, k), 0.375 * Abs(k)) && -RAW_BOUND <= i <= RAW_BOUND
    ensures fp.round(Div(p3, k)).Finite? && RoundHalfAway(fp.round(Div(p3, k)).r) == i
  {
    var q := Div(p3, k);
    assert Close(q, i as real, 0.375) by {
      QuotientBound(p3, i as real, k, 0.375);
    }
    FinalRounding(fp, eta, max, q, i);
  }

  lemma ForwardSteps(fp: Fp, eta: real, max: real, x: real, k: real, o: real) returns (p1: real, p2: real, p3: real)
    requires RoundsLikeDoubles(fp, eta, max)
    requires -70368744177664.0 <= x <= 70368744177664.0 && Abs(o) <= Times2To50(Abs(k))
    requires 0.0 <= 64.0 * eta <= Abs(k) && 4.0 * Times2To50(Abs(k)) <= max
    ensures fp.round(Mul(x, k)) == Finite(p1)
    ensures fp.round(p1 + o) == Finite(p2) && fp.round(p2 - o) == Finite(p3)
    ensures Close(p3, Mul(x, k), 0.375 * Abs(k))
  {
    ProductBound(x, k);
    p1, p2, p3 := ForwardError(fp, eta, max, Mul(x, k), o, Abs(k));
  }

  /** The double that encoding hands to `round` is within half a step of the raw value it came from. */
  lemma ScaledRecovers(fp: Fp, def: SignalDef, eta: real, max: real, i: int) returns (v: real)
    requires RoundsLikeDoubles(fp, eta, max) && TameScaling(def, eta, max) && def.scale.r != 0.0
    requires -RAW_BOUND <= i <= RAW_BOUND
    ensures Physical(fp, def, Int(i)) == Finite(v)
    ensures Scaled(fp, def, v).Finite? && RoundHalfAway(Scaled(fp, def, v).r) == i
  {
    var p1, p2, p3 := ForwardSteps(fp, eta, max, i as real, def.scale.r, def.offset.r);
    v := p2;
    ScaledFromSteps(fp, def, eta, max, i, p1, p2, p3);
  }

  lemma ScaledFromSteps(fp: Fp, def: SignalDef, eta: real, max: real, i: int, p1: real, p2: real, p3: real)
    requires RoundsLikeDoubles(fp, eta, max) && Times2To50(1.0) <= max && 0.0 <= 64.0 * eta <= 1.0
    requires def.scale.Finite? && def.offset.Finite? && def.scale.r != 0.0
    requires -RAW_BOUND <= i <= RAW_BOUND
    requires fp.round(Mul(i as real, def.scale.r)) == Finite(p1)
    requires fp.round(p1 + def.offset.r) == Finite(p2) && fp.round(p2 - def.offset.r) == Finite(p3)
    requires Close(p3, Mul(i as real, def.scale.r), 0.375 * Abs(def.scale.r))
    ensures Physical(fp, def, Int(i)) == Finite(p2)
    ensures Scaled(fp, def, p2).Finite? && RoundHalfAway(Scaled(fp, def, p2).r) == i
  {
    DivisionRecovers(fp, eta, max, p3, i, def.scale.r);
    assert ExactOn(fp, i);
    Unfold(fp, def, i, p1, p2, p3);
  }

  /** The operations of decoding and of encoding, one after the other. */
  lemma Unfold(fp: Fp, def: SignalDef, i: int, p1: real, p2: real, p3: real)
    requires def.scale.Finite? && def.offset.Finite? && def.scale.r != 0.0 && ExactOn(fp, i)
    requires fp.round(Mul(i as real, def.scale.r)) == Finite(p1)
    requires fp.round(p1 + def.offset.r) == Finite(p2) && fp.round(p2 - def.offset.r) == Finite(p3)
    ensures Physical(fp, def, Int(i)) == Finite(p2)
    ensures Scaled(fp, def, p2) == fp.round(Div(p3, def.scale.r))
  {
  }

  /**
   * Every payload of an integer signal, of any width, whose raw value is at most 2^46 in
   * magnitude decodes to a number that encodes to the same payload, rounding errors included.
   */
  lemma PayloadSurvivesRounding(fp: Fp, s: Signal, eta: real, max: real, p: seq<byte>, i: int)
    requires Built(s) && s.Kind().KindNum? && !s.def.ty.IsFloat()
    requires RoundsLikeDoubles(fp, eta, max) && TameScaling(s.def, eta, max)
    requires |p| == s.def.ty.Size() && ReadRaw(fp, s.def.ty, s.Endianness(), p) == Some(Int(i))
    requires -RAW_BOUND <= i <= RAW_BOUND
    ensures PayloadSurvives(fp, s, p)
  {
    RawReadWrite(fp, s.def.ty, s.Endianness(), p);
    var v := ScaledRecovers(fp, s.def, eta, max, i);
    assert DecodeValue(fp, s, p) == Ok(Num(v));
    NumberRejectedIff(fp, s, v);
    assert SaturateI128(i) == i;
  }

  /** The payload decodes, and what it decodes to encodes to the same payload. */
  predicate PayloadSurvives(fp: Fp, s: Signal, p: seq<byte>) {
    DecodeValue(fp, s, p).Ok? && EncodeValue(fp, s, DecodeValue(fp, s, p).value) == Ok(p)
  }

  /** Up to 32 bits every raw value is within the bound, so every payload survives. */
  lemma NarrowPayloadSurvives(fp: Fp, s: Signal, eta: real, max: real, p: seq<byte>)
    requires Built(s) && s.Kind().KindNum? && !s.def.ty.IsFloat() && s.def.ty.Size() <= 4
    requires RoundsLikeDoubles(fp, eta, max) && TameScaling(s.def, eta, max)
    requires |p| == s.def.ty.Size()
    ensures PayloadSurvives(fp, s, p)
  {
    RawReadWrite(fp, s.def.ty, s.Endianness(), p);
    var i := ReadRaw(fp, s.def.ty, s.Endianness(), p).value.i;
    FitsIsIntRange(s.def.ty, i);
    PayloadSurvivesRounding(fp, s, eta, max, p, i);
  }

  // ---- numbers through rounded arithmetic -------------------------------

  lemma QuotientStep(p: real, d: real, k: real, c: real)
    requires k != 0.0 && Close(p, d, c * Abs(k))
    ensures Close(Div(p, k), Div(d, k), c)
  {
    DivideMultiply(d, k);
    QuotientBound(p, Div(d, k), k, c);
  }

  /** The scaled double is within a sixteenth of the exact quotient. */
  lemma ScaledClose(fp: Fp, eta: real, max: real, d: real, k: real) returns (p: real, q: real)
    requires RoundsLikeDoubles(fp, eta, max) && k != 0.0
    requires 0.0 <= 64.0 * eta <= Abs(k) && 64.0 * eta <= 1.0
    requires 4.0 * Times2To50(Abs(k)) <= max && Times2To50(1.0) <= max
    requires Close(Div(d, k), 0.0, 70368744177664.0) && Close(d, 0.0, 70368744177664.0 * Abs(k))
    ensures fp.round(d) == Finite(p) && fp.round(Div(p, k)) == Finite(q)
    ensures Close(q, Div(d, k), 0.0625)
  {
    DifferenceRounded(fp, eta, max, d, Abs(k));
    p := fp.round(d).r;
    QuotientStep(p, d, k, 0.03125);
    QuotientRounded(fp, eta, max, Div(p, k), Div(d, k));
    q := fp.round(Div(p, k)).r;
  }

  lemma DifferenceRounded(fp: Fp, eta: real, max: real, d: real, a: real)
    requires RoundsLikeDoubles(fp, eta, max) && 0.0 <= 64.0 * eta <= a && 4.0 * Times2To50(a) <= max
    requires Close(d, 0.0, 70368744177664.0 * a)
    ensures fp.round(d).Finite? && Close(fp.round(d).r, d, 0.03125 * a)
  {
    RoundAt(fp, eta, max, d, 0.015625 * a);
  }

  lemma QuotientRounded(fp: Fp, eta: real, max: real, x: real, y: real)
    requires RoundsLikeDoubles(fp, eta, max) && 0.0 <= 64.0 * eta <= 1.0 && Times2To50(1.0) <= max
    requires Close(x, y, 0.03125) && Close(y, 0.0, 70368744177664.0)
    ensures fp.round(x).Finite? && Close(fp.round(x).r, y, 0.0625)
  {
    RoundAt(fp, eta, max, x, 0.015625);
  }

  /** The number an integer raw value decodes to is within 0.3 scale steps of the exact one. */
  lemma PhysicalClose(fp: Fp, eta: real, max: real, x: real, k: real, o: real) returns (p1: real, p2: real)
    requires RoundsLikeDoubles(fp, eta, max)
    requires -70368744177665.0 * Abs(k) <= Mul(x, k) <= 70368744177665.0 * Abs(k) && Abs(o) <= Times2To50(Abs(k))
    requires 0.0 <= 64.0 * eta <= Abs(k) && 4.0 * Times2To50(Abs(k)) <= max
    ensures fp.round(Mul(x, k)) == Finite(p1) && fp.round(p1 + o) == Finite(p2)
    ensures Close(p2, Mul(x, k) + o, 0.3125 * Abs(k))
  {
    RoundAt(fp, eta, max, Mul(x, k), 0.015625 * Abs(k));
    p1 := fp.round(Mul(x, k)).r;
    RoundAt(fp, eta, max, p1 + o, 0.25 * Abs(k));
    p2 := fp.round(p1 + o).r;
  }

  /** An error of `c` steps is at most `c` times the step. */
  lemma StepsApart(i: real, d: real, k: real, c: real)
    requires k != 0.0 && Close(i, Div(d, k), c)
    ensures Close(Mul(i, k), d, c * Abs(k))
  {
    DivideMultiply(d, k);
    ProductBounds(i - Div(d, k), k, c);
    assert (i - Div(d, k)) * k == i * k - Div(d, k) * k;
  }

  /** The raw value that a number is encoded with, times the scale, is near the number less the offset. */
  lemma RawClose(fp: Fp, def: SignalDef, eta: real, max: real, v: real) returns (q: real)
    requires RoundsLikeDoubles(fp, eta, max) && TameScaling(def, eta, max) && def.scale.r != 0.0
    requires Close(Div(v - def.offset.r, def.scale.r), 0.0, 70368744177664.0)
    ensures Scaled(fp, def, v) == Finite(q) && -RAW_BOUND - 1 <= RoundHalfAway(q) <= RAW_BOUND + 1
    ensures Close(Mul(RoundHalfAway(q) as real, def.scale.r), v - def.offset.r, 0.5625 * Abs(def.scale.r))
  {
    var p;
    p, q := RawCloseAt(fp, eta, max, v - def.offset.r, def.scale.r);
    ScaledUnfold(fp, def, v, p, q);
  }

  lemma RawCloseAt(fp: Fp, eta: real, max: real, d: real, k: real) returns (p: real, q: real)
    requires RoundsLikeDoubles(fp, eta, max) && k != 0.0 && Close(Div(d, k), 0.0, 70368744177664.0)
    requires 0.0 <= 64.0 * eta <= Abs(k) && 64.0 * eta <= 1.0
    requires 4.0 * Times2To50(Abs(k)) <= max && Times2To50(1.0) <= max
    ensures fp.round(d) == Finite(p) && fp.round(Div(p, k)) == Finite(q)
    ensures -RAW_BOUND - 1 <= RoundHalfAway(q) <= RAW_BOUND + 1
    ensures Close(Mul(RoundHalfAway(q) as real, k), d, 0.5625 * Abs(k))
  {
    Magnitude(d, k, 70368744177664.0);
    p, q := ScaledClose(fp, eta, max, d, k);
    NearestRawSteps(q, d, k);
  }

  lemma NearestRawSteps(q: real, d: real, k: real)
    requires k != 0.0 && Close(q, Div(d, k), 0.0625) && Close(Div(d, k), 0.0, 70368744177664.0)
    ensures -RAW_BOUND - 1 <= RoundHalfAway(q) <= RAW_BOUND + 1
    ensures Close(Mul(RoundHalfAway(q) as real, k), d, 0.5625 * Abs(k))
  {
    NearestRaw(q, Div(d, k));
    StepsApart(RoundHalfAway(q) as real, d, k, 0.5625);
  }

  lemma Magnitude(d: real, k: real, c: real)
    requires k != 0.0 && Close(Div(d, k), 0.0, c)
    ensures Close(d, 0.0, c * Abs(k))
  {
    DivideMultiply(d, k);
    ProductBounds(Div(d, k), k, c);
  }

  lemma ScaledUnfold(fp: Fp, def: SignalDef, v: real, p: real, q: real)
    requires def.scale.Finite? && def.offset.Finite? && def.scale.r != 0.0
    requires fp.round(v - def.offset.r) == Finite(p) && fp.round(Div(p, def.scale.r)) == Finite(q)
    ensures Scaled(fp, def, v) == Finite(q)
  {
  }

  lemma NearestRaw(q: real, y: real)
    requires Close(q, y, 0.0625) && Close(y, 0.0, 70368744177664.0)
    ensures -RAW_BOUND - 1 <= RoundHalfAway(q) <= RAW_BOUND + 1
    ensures Close(RoundHalfAway(q) as real, y, 0.5625)
  {
    RoundHalfAwayNear(q);
  }

  /**
   * A number whose raw value is within 2^46 scale steps of zero encodes unless the type is too
   * narrow, and then decodes to within one scale step of itself, rounding errors included.
   */
  lemma NumberWithinOneStep(fp: Fp, s: Signal, eta: real, max: real, v: real) returns (w: real)
    requires Built(s) && s.Kind().KindNum? && !s.def.ty.IsFloat()
    requires RoundsLikeDoubles(fp, eta, max) && TameScaling(s.def, eta, max)
    requires Close(Div(v - s.def.offset.r, s.def.scale.r), 0.0, 70368744177664.0)
    requires EncodeValue(fp, s, Num(v)).Ok?
    ensures DecodeValue(fp, s, EncodeValue(fp, s, Num(v)).value) == Ok(Num(w))
    ensures Close(w, v, Abs(s.def.scale.r))
  {
    var q := RawClose(fp, s.def, eta, max, v);
    w := DecodedClose(fp, s.def, eta, max, RoundHalfAway(q), v);
    NumberRejectedIff(fp, s, v);
  }

  lemma DecodedClose(fp: Fp, def: SignalDef, eta: real, max: real, i: int, v: real) returns (w: real)
    requires RoundsLikeDoubles(fp, eta, max) && TameScaling(def, eta, max) && def.scale.r != 0.0
    requires -RAW_BOUND - 1 <= i <= RAW_BOUND + 1
    requires Close(Mul(i as real, def.scale.r), v - def.offset.r, 0.5625 * Abs(def.scale.r))
    ensures Physical(fp, def, Int(i)) == Finite(w) && Close(w, v, Abs(def.scale.r))
  {
    var k, o := def.scale.r, def.offset.r;
    RawProductBound(i as real, k);
    var p1, p2 := PhysicalClose(fp, eta, max, i as real, k, o);
    assert ExactOn(fp, i);
    PhysicalFromSteps(fp, def, i, p1, p2);
    Together(p2, Mul(i as real, k), v, o, Abs(k));
    w := p2;
  }

  lemma RawProductBound(x: real, k: real)
    requires -70368744177665.0 <= x <= 70368744177665.0
    ensures -70368744177665.0 * Abs(k) <= Mul(x, k) <= 70368744177665.0 * Abs(k)
  {
    ProductBounds(x, k, 70368744177665.0);
  }

  lemma Together(w: real, m: real, v: real, o: real, a: real)
    requires a >= 0.0 && Close(w, m + o, 0.3125 * a) && Close(m, v - o, 0.5625 * a)
    ensures Close(w, v, a)
  {
  }

  lemma PhysicalFromSteps(fp: Fp, def: SignalDef, i: int, p1: real, p2: real)
    requires def.scale.Finite? && def.offset.Finite? && ExactOn(fp, i)
    requires fp.round(Mul(i as real, def.scale.r)) == Finite(p1) && fp.round(p1 + def.offset.r) == Finite(p2)
    ensures Physical(fp, def, Int(i)) == Finite(p2)
  {
  }

  // ---- scale one, offset zero: the exact condition ----------------------

  function Pow2(k: nat): (r: nat)
    ensures r >= 1
  {
    if k == 0 then 1 else 2 * Pow2(k - 1)
  }

  function Shifted(m: int, k: nat): int { m * Pow2(k) }

  /** `i` is a double: 53 significant bits, then zeros. */
  ghost predicate Representable(i: int) {
    exists m: int, k: nat :: -EXACT_INTEGERS <= m <= EXACT_INTEGERS && i == Shifted(m, k)
  }

  /** The 64-bit integers, signed or not, and the double just past them. */
  predicate IsWide(i: int) {
    -0x1_0000_0000_0000_0000 <= i <= 0x1_0000_0000_0000_0000
  }

  /** `fp.round` takes every 64-bit integer to an integer that is a double, and leaves those that are doubles alone. */
  ghost predicate RoundsToDoubles(fp: Fp) {
    && (forall i :: IsWide(i) ==> RoundsToInteger(fp, i))
    && (forall i :: IsWide(i) && Representable(i) ==> ExactOn(fp, i))
  }

  ghost predicate RoundsToInteger(fp: Fp, i: int) {
    exists j :: IsWide(j) && Representable(j) && fp.round(i as real) == Finite(j as real)
  }

  /** An integer converts to a double without rounding exactly when it has at most 53 significant bits. */
  lemma ExactIffRepresentable(fp: Fp, i: int)
    requires RoundsToDoubles(fp) && IsWide(i)
    ensures ExactOn(fp, i) <==> Representable(i)
  {
    assert RoundsToInteger(fp, i);
    var j :| IsWide(j) && Representable(j) && fp.round(i as real) == Finite(j as real);
  }

  lemma UnitScale(v: real)
    ensures Mul(v, 1.0) == v && Div(v, 1.0) == v
  {
  }

  lemma RoundsItself(j: int)
    ensures RoundHalfAway(j as real) == j
  {
  }

  /** With the default scale and offset the number is the rounded raw value, and scales back to itself. */
  lemma DefaultScaling(fp: Fp, def: SignalDef, i: int, j: int)
    requires def.scale == Finite(1.0) && def.offset == Finite(0.0)
    requires fp.round(i as real) == Finite(j as real) && ExactOn(fp, j)
    ensures Physical(fp, def, Int(i)) == Finite(j as real)
    ensures Scaled(fp, def, j as real) == Finite(j as real)
  {
    UnitScale(j as real);
  }

  /**
   * With the catalog's default scale and offset, the payload of any integer signal survives
   * if and only if its raw value has at most 53 significant bits.
   */
  lemma PayloadSurvivesIff(fp: Fp, s: Signal, p: seq<byte>, i: int)
    requires Built(s) && s.Kind().KindNum? && !s.def.ty.IsFloat()
    requires s.def.scale == Finite(1.0) && s.def.offset == Finite(0.0) && RoundsToDoubles(fp)
    requires |p| == s.def.ty.Size() && ReadRaw(fp, s.def.ty, s.Endianness(), p) == Some(Int(i))
    ensures PayloadSurvives(fp, s, p) <==> Representable(i)
  {
    RawIsWide(fp, s, p, i);
    assert RoundsToInteger(fp, i);
    var j :| IsWide(j) && Representable(j) && fp.round(i as real) == Finite(j as real);
    ExactIffRepresentable(fp, i);
    DefaultScaling(fp, s.def, i, j);
    SurvivesAsInteger(fp, s, p, i, j as real, j);
  }

  lemma RawIsWide(fp: Fp, s: Signal, p: seq<byte>, i: int)
    requires |p| == s.def.ty.Size() && ReadRaw(fp, s.def.ty, s.Endianness(), p) == Some(Int(i))
    requires !s.def.ty.IsFloat() && s.Kind().KindNum?
    ensures IsWide(i)
  {
    RawReadWrite(fp, s.def.ty, s.Endianness(), p);
    FitsIsIntRange(s.def.ty, i);
  }

  lemma DecodesToNumber(fp: Fp, s: Signal, p: seq<byte>, i: int, v: real)
    requires s.Kind().KindNum? && |p| == s.def.ty.Size()
    requires ReadRaw(fp, s.def.ty, s.Endianness(), p) == Some(Int(i)) && Physical(fp, s.def, Int(i)) == Finite(v)
    ensures DecodeValue(fp, s, p) == Ok(Num(v))
  {
  }

  /** Writing an integer gives the bytes another one was read from exactly when they are equal. */
  lemma SameBytesIff(fp: Fp, ty: SignalType, endian: Endian, p: seq<byte>, i: int, j: int)
    requires !ty.IsFloat() && |p| == ty.Size() && ReadRaw(fp, ty, endian, p) == Some(Int(i))
    ensures WriteRaw(fp, ty, endian, Int(j)) == Some(p) <==> j == i
  {
    RawReadWrite(fp, ty, endian, p);
    RawWriteRead(fp, ty, endian, j);
  }

  lemma ShiftedIsEven(m: int, k: nat)
    requires k > 0
    ensures Shifted(m, k) % 2 == 0
  {
    assert Shifted(m, k) == 2 * (m * Pow2(k - 1));
  }

  /** 2^53 + 1 is the least positive integer that is not a double. */
  lemma LeastUnrepresentable(i: int)
    requires 0 <= i <= EXACT_INTEGERS + 1
    ensures Representable(i) <==> i <= EXACT_INTEGERS
  {
    if i <= EXACT_INTEGERS {
      assert i == Shifted(i, 0);
    } else if Representable(i) {
      var m, k :| -EXACT_INTEGERS <= m <= EXACT_INTEGERS && i == Shifted(m, k);
      if k > 0 {
        ShiftedIsEven(m, k);
      }
    }
  }

  /**
   * A payload that changes, on the least hypotheses: with ties to even the cast of 2^53 + 1
   * rounds down, and that integer's payload encodes to another one.
   */
  lemma WidePayloadChanges(fp: Fp, s: Signal, p: seq<byte>)
    requires Built(s) && s.def.ty.TyU64? && s.Kind().KindNum?
    requires s.def.scale == Finite(1.0) && s.def.offset == Finite(0.0)
    requires fp.round(9007199254740993.0) == Finite(9007199254740992.0)
    requires fp.round(9007199254740992.0) == Finite(9007199254740992.0)
    requires WriteRaw(fp, TyU64, s.Endianness(), Int(9007199254740993)) == Some(p)
    ensures DecodeValue(fp, s, p).Ok?
    ensures EncodeValue(fp, s, DecodeValue(fp, s, p).value) != Ok(p)
  {
    var i := 9007199254740993;
    RawWriteRead(fp, TyU64, s.Endianness(), i);
    var v := 9007199254740992.0;
    assert RawNumber(fp, Int(i)) == Finite(v);
    assert DecodeValue(fp, s, p) == Ok(Num(v));
    NumberRejectedIff(fp, s, v);
    assert Div(v, 1.0) == v && Mul(v, 1.0) == v;
    assert Scaled(fp, s.def, v) == Finite(v);
  }

  // ---- scale one, whole offset: the exact condition ---------------------

  /** The number `fp.round` gives for an integer, where that is finite. */
  function Rounded(fp: Fp, i: int): real {
    match fp.round(i as real)
    case Finite(v) => v
    case NonFinite => 0.0
  }

  /** Rounding keeps the order of 64-bit integers. */
  ghost predicate RoundsMonotonically(fp: Fp) {
    forall a, b :: IsWide(a) && IsWide(b) && a <= b ==> Rounded(fp, a) <= Rounded(fp, b)
  }

  const TWO_62 := 0x4000_0000_0000_0000

  /** Integers up to 2^53, and the powers of two that bound offset arithmetic, are doubles. */
  lemma SmallIsRepresentable(i: int)
    requires -EXACT_INTEGERS <= i <= EXACT_INTEGERS
    ensures Representable(i)
  {
    assert Pow2(0) == 1 && i == Shifted(i, 0);
  }

  lemma PowerIsRepresentable()
    ensures Representable(2 * TWO_62) && Representable(-2 * TWO_62)
  {
    assert Pow2(5) == 32 && Pow2(10) == 1024;
    assert 2 * TWO_62 == Shifted(EXACT_INTEGERS, 10);
    assert -2 * TWO_62 == Shifted(-EXACT_INTEGERS, 10);
  }

  /** A 64-bit integer rounds to an integer that is a double; to itself exactly when it is one. */
  lemma RoundsTo(fp: Fp, i: int) returns (j: int)
    requires RoundsToDoubles(fp) && IsWide(i)
    ensures IsWide(j) && Representable(j) && ExactOn(fp, j)
    ensures fp.round(i as real) == Finite(j as real) && (j == i <==> Representable(i))
  {
    assert RoundsToInteger(fp, i);
    j :| IsWide(j) && Representable(j) && fp.round(i as real) == Finite(j as real);
    if Representable(i) {
      assert ExactOn(fp, i);
    }
  }

  /** Rounding does not cross a double. */
  lemma RoundsBetween(fp: Fp, lo: int, i: int, hi: int) returns (j: int)
    requires RoundsToDoubles(fp) && RoundsMonotonically(fp) && IsWide(lo) && IsWide(hi) && lo <= i <= hi
    requires Representable(lo) && Representable(hi)
    ensures IsWide(j) && Representable(j) && ExactOn(fp, j) && lo <= j <= hi
    ensures fp.round(i as real) == Finite(j as real) && (j == i <==> Representable(i))
  {
    j := RoundsTo(fp, i);
    assert ExactOn(fp, lo) && ExactOn(fp, hi);
    assert Rounded(fp, lo) <= Rounded(fp, i) <= Rounded(fp, hi);
  }

  /** Nothing else rounds to an integer below 2^53. */
  lemma OnlyItselfBelow(fp: Fp, d: int, m: int, i: int)
    requires RoundsToDoubles(fp) && RoundsMonotonically(fp) && IsWide(d)
    requires fp.round(d as real) == Finite(m as real) && -EXACT_INTEGERS < i < EXACT_INTEGERS
    ensures m == i <==> d == i
  {
    SmallIsRepresentable(EXACT_INTEGERS);
    SmallIsRepresentable(-EXACT_INTEGERS);
    if -EXACT_INTEGERS <= d <= EXACT_INTEGERS {
      SmallIsRepresentable(d);
      assert ExactOn(fp, d);
    } else if d > EXACT_INTEGERS {
      assert ExactOn(fp, EXACT_INTEGERS) && Rounded(fp, EXACT_INTEGERS) <= Rounded(fp, d);
    } else {
      assert ExactOn(fp, -EXACT_INTEGERS) && Rounded(fp, d) <= Rounded(fp, -EXACT_INTEGERS);
    }
  }

  /** What decoding and encoding compute, for a raw value, an offset, the rounded sum and the rounded difference. */
  lemma OffsetScaling(fp: Fp, def: SignalDef, i: int, o: int, j: int, m: int)
    requires def.scale == Finite(1.0) && def.offset == Finite(o as real) && ExactOn(fp, i) && ExactOn(fp, m)
    requires fp.round((i + o) as real) == Finite(j as real) && fp.round((j - o) as real) == Finite(m as real)
    ensures Physical(fp, def, Int(i)) == Finite(j as real)
    ensures Scaled(fp, def, j as real) == Finite(m as real)
  {
    UnitScale(i as real);
    UnitScale(m as real);
    assert (i as real) + (o as real) == (i + o) as real;
    assert (j as real) - (o as real) == (j - o) as real;
  }

  /** A value that scales to an integer is encoded as that integer. */
  lemma EncodesScaled(fp: Fp, s: Signal, v: real, m: int)
    requires s.Kind().KindNum? && !s.def.ty.IsFloat() && IsWide(m) && Scaled(fp, s.def, v) == Finite(m as real)
    ensures var b := WriteRaw(fp, s.def.ty, s.Endianness(), Int(m));
            EncodeValue(fp, s, Num(v)) == if b.Some? then Ok(b.value) else Err(OutOfRange(s.def.name, Finite(v)))
  {
    RoundsItself(m);
    assert SaturateI128(m) == m;
  }

  /**
   * With scale one and a whole offset, the payload of a raw value below 2^53 survives if and
   * only if raw value plus offset has at most 53 significant bits.
   */
  lemma OffsetPayloadSurvivesIff(fp: Fp, s: Signal, p: seq<byte>, i: int, o: int)
    requires Built(s) && s.Kind().KindNum? && !s.def.ty.IsFloat()
    requires s.def.scale == Finite(1.0) && s.def.offset == Finite(o as real) && -TWO_62 <= o <= TWO_62
    requires RoundsToDoubles(fp) && RoundsMonotonically(fp)
    requires |p| == s.def.ty.Size() && ReadRaw(fp, s.def.ty, s.Endianness(), p) == Some(Int(i))
    requires -EXACT_INTEGERS < i < EXACT_INTEGERS
    ensures PayloadSurvives(fp, s, p) <==> Representable(i + o)
  {
    var j, m := OffsetRounding(fp, i, o);
    OffsetScaling(fp, s.def, i, o, j, m);
    SurvivesAsInteger(fp, s, p, i, j as real, m);
  }

  /** Adding and taking away an offset, with rounding, gives a raw value back exactly when the sum is a double. */
  lemma OffsetRounding(fp: Fp, i: int, o: int) returns (j: int, m: int)
    requires RoundsToDoubles(fp) && RoundsMonotonically(fp)
    requires -EXACT_INTEGERS < i < EXACT_INTEGERS && -TWO_62 <= o <= TWO_62
    ensures ExactOn(fp, i) && ExactOn(fp, m) && IsWide(m)
    ensures fp.round((i + o) as real) == Finite(j as real) && fp.round((j - o) as real) == Finite(m as real)
    ensures m == i <==> Representable(i + o)
  {
    SmallIsExact(fp, i);
    j := SumRounds(fp, i + o);
    m := DifferenceRounds(fp, j - o, i);
  }

  lemma SmallIsExact(fp: Fp, i: int)
    requires RoundsToDoubles(fp) && -EXACT_INTEGERS <= i <= EXACT_INTEGERS
    ensures ExactOn(fp, i)
  {
    SmallIsRepresentable(i);
    assert IsWide(i);
  }

  lemma SumRounds(fp: Fp, sum: int) returns (j: int)
    requires RoundsToDoubles(fp) && RoundsMonotonically(fp) && -2 * TWO_62 <= sum <= 2 * TWO_62
    ensures -2 * TWO_62 <= j <= 2 * TWO_62
    ensures fp.round(sum as real) == Finite(j as real) && (j == sum <==> Representable(sum))
  {
    PowerIsRepresentable();
    j := RoundsBetween(fp, -2 * TWO_62, sum, 2 * TWO_62);
  }

  lemma DifferenceRounds(fp: Fp, d: int, i: int) returns (m: int)
    requires RoundsToDoubles(fp) && RoundsMonotonically(fp) && IsWide(d) && -EXACT_INTEGERS < i < EXACT_INTEGERS
    ensures IsWide(m) && ExactOn(fp, m) && fp.round(d as real) == Finite(m as real) && (m == i <==> d == i)
  {
    m := RoundsTo(fp, d);
    OnlyItselfBelow(fp, d, m, i);
  }

  /** A payload that decodes to `v`, which scales to the integer `m`, survives exactly when `m` is its raw value. */
  lemma SurvivesAsInteger(fp: Fp, s: Signal, p: seq<byte>, i: int, v: real, m: int)
    requires s.Kind().KindNum? && !s.def.ty.IsFloat() && |p| == s.def.ty.Size()
    requires ReadRaw(fp, s.def.ty, s.Endianness(), p) == Some(Int(i)) && Physical(fp, s.def, Int(i)) == Finite(v)
    requires IsWide(m) && Scaled(fp, s.def, v) == Finite(m as real)
    ensures PayloadSurvives(fp, s, p) <==> m == i
  {
    DecodesToNumber(fp, s, p, i, v);
    EncodesScaled(fp, s, v, m);
    SameBytesIff(fp, s.def.ty, s.Endianness(), p, i, m);
  }

  /** Below 2^53 in all, raw value and offset together, every payload survives. */
  lemma SmallOffsetSurvives(fp: Fp, s: Signal, p: seq<byte>, i: int, o: int)
    requires Built(s) && s.Kind().KindNum? && !s.def.ty.IsFloat()
    requires s.def.scale == Finite(1.0) && s.def.offset == Finite(o as real)
    requires RoundsToDoubles(fp) && RoundsMonotonically(fp)
    requires |p| == s.def.ty.Size() && ReadRaw(fp, s.def.ty, s.Endianness(), p) == Some(Int(i))
    requires -EXACT_INTEGERS < i < EXACT_INTEGERS && -EXACT_INTEGERS <= o <= EXACT_INTEGERS
    requires -EXACT_INTEGERS <= i + o <= EXACT_INTEGERS
    ensures PayloadSurvives(fp, s, p)
  {
    SmallIsRepresentable(i + o);
    OffsetPayloadSurvivesIff(fp, s, p, i, o);
  }

  /** A one-byte payload that changes: with offset 2^54, the raw value 1 comes back as 0. */
  lemma NarrowPayloadChanges(fp: Fp, s: Signal)
    requires Built(s) && s.def.ty.TyU8? && s.Kind().KindNum?
    requires s.def.scale == Finite(1.0) && s.def.offset == Finite(18014398509481984.0)
    requires ExactOn(fp, 0) && ExactOn(fp, 1) && fp.round(18014398509481985.0) == Finite(18014398509481984.0)
    ensures DecodeValue(fp, s, [1]) == Ok(Num(18014398509481984.0))
    ensures EncodeValue(fp, s, Num(18014398509481984.0)) == Ok([0])
  {
    var v := 18014398509481984.0;
    OneByte(fp, s.Endianness());
    OffsetScaling(fp, s.def, 1, 18014398509481984, 18014398509481984, 0);
    DecodesToNumber(fp, s, [1], 1, v);
    EncodesScaled(fp, s, v, 0);
    SameBytesIff(fp, TyU8, s.Endianness(), [0], 0, 0);
  }

  lemma OneByte(fp: Fp, endian: Endian)
    ensures ReadRaw(fp, TyU8, endian, [1]) == Some(Int(1)) && ReadRaw(fp, TyU8, endian, [0]) == Some(Int(0))
  {
    assert [1][..0] == [] && [0][..0] == [] && [1][1..] == [] && [0][1..] == [];
    assert Bytes.FromBe([1]) == 1 && Bytes.FromLe([1]) == 1 && Bytes.FromBe([0]) == 0 && Bytes.FromLe([0]) == 0;
  }
}
