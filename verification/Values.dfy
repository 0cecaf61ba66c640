/** Payload codec: raw integers and floats in either byte order, scaling, enum labels. */
module Values {
  import opened Prelude
  import opened Bytes
  import opened Catalog

  /** Problems with one frame; the other frames of the packet still count. */
  datatype FrameErrorKind =
    | Truncated
    | LengthMismatch(expected: nat, actual: nat)
    | InvalidValue
    | TrailingBytes(count: nat)

  datatype EncodeError =
    | NoFrames
    | TooManyFrames(count: nat)
    | PayloadTooLong(signalId: u16, len: nat)
    | Oversize(total: nat)
    | KindMismatch(signal: string, value: SignalValue)
    | OutOfRange(signal: string, number: F64)
    | UnknownEnumLabel(signal: string, text: string)

  /**
   * The floating-point unit: `round` is the rounding applied to every double operation and
   * to the integer-to-double cast; the other four are the bit patterns of `f32` and `f64`
   * (most significant byte first), `f32To` failing where the narrowing cast is not finite.
   */
  datatype Fp = Fp(
    round: real -> F64,
    f32Of: seq<byte> -> F64, f64Of: seq<byte> -> F64,
    f32To: real -> Option<seq<byte>>, f64To: real -> seq<byte>)

  /** Products and quotients by name, so that equal operands are seen to give equal results. */
  function Mul(x: real, y: real): real { x * y }

  function Div(x: real, y: real): real
    requires y != 0.0
  {
    x / y
  }

  function FMul(fp: Fp, a: F64, b: F64): F64 {
    if a.Finite? && b.Finite? then fp.round(Mul(a.r, b.r)) else NonFinite
  }

  function FAdd(fp: Fp, a: F64, b: F64): F64 {
    if a.Finite? && b.Finite? then fp.round(a.r + b.r) else NonFinite
  }

  function FSub(fp: Fp, a: F64, b: F64): F64 {
    if a.Finite? && b.Finite? then fp.round(a.r - b.r) else NonFinite
  }

  /** Division; the catalog keeps the divisor finite and non-zero. */
  function FDiv(fp: Fp, a: F64, b: F64): F64 {
    if a.Finite? && b.Finite? && b.r != 0.0 then fp.round(Div(a.r, b.r)) else NonFinite
  }

  /** `f64::round`: nearest integer, halves away from zero. */
  function RoundHalfAway(x: real): int {
    if x >= 0.0 then (x + 0.5).Floor else -((0.5 - x).Floor)
  }

  /** The saturating cast `as i128`. */
  function SaturateI128(i: int): int {
    if i < I128_MIN then I128_MIN else if i > I128_MAX then I128_MAX else i
  }

  // ---- raw payloads -----------------------------------------------------

  datatype Raw = Int(i: int) | Float(f: F64)

  function ToWire(endian: Endian, n: nat, v: nat): seq<byte>
    requires v < Pow256(n)
  {
    if endian.Big? then ToBe(n, v) else ToLe(n, v)
  }

  function FromWire(endian: Endian, p: seq<byte>): (v: nat)
    ensures v < Pow256(|p|)
  {
    if endian.Big? then FromBe(p) else FromLe(p)
  }

  /** Whether `i` is a signed or unsigned `n`-byte integer. */
  predicate FitsIn(signed: bool, n: nat, i: int) {
    if signed then 0 <= 2 * i + Pow256(n) < 2 * Pow256(n) else 0 <= i < Pow256(n)
  }

  /** The wire range of a `ty` integer (bool travels as `u8`). */
  predicate Fits(ty: SignalType, i: int) {
    FitsIn(ty.IsSigned(), ty.Size(), i)
  }

  /** `from_be_bytes` or `from_le_bytes`, in two's complement when signed. */
  function ReadInt(signed: bool, endian: Endian, p: seq<byte>): int {
    var u := FromWire(endian, p);
    if signed && 2 * u >= Pow256(|p|) then u - Pow256(|p|) else u
  }

  function WriteInt(signed: bool, endian: Endian, n: nat, i: int): (p: seq<byte>)
    requires FitsIn(signed, n, i)
  {
    ToWire(endian, n, if i < 0 then i + Pow256(n) else i)
  }

  lemma {:induction false} IntWriteRead(signed: bool, endian: Endian, n: nat, i: int)
    requires FitsIn(signed, n, i)
    ensures |WriteInt(signed, endian, n, i)| == n
    ensures ReadInt(signed, endian, WriteInt(signed, endian, n, i)) == i
  {
    var u := if i < 0 then i + Pow256(n) else i;
    BeWriteRead(n, u);
    LeWriteRead(n, u);
  }

  lemma {:induction false} IntReadWrite(signed: bool, endian: Endian, p: seq<byte>)
    ensures FitsIn(signed, |p|, ReadInt(signed, endian, p))
    ensures WriteInt(signed, endian, |p|, ReadInt(signed, endian, p)) == p
  {
    BeReadWrite(p);
    LeReadWrite(p);
  }

  function ReadRaw(fp: Fp, ty: SignalType, endian: Endian, p: seq<byte>): Option<Raw> {
    if |p| != ty.Size() then None
    else if ty.IsFloat() then
      var be := if endian.Big? then p else Reverse(p);
      Some(Float(if ty.TyF32? then fp.f32Of(be) else fp.f64Of(be)))
    else Some(Int(ReadInt(ty.IsSigned(), endian, p)))
  }

  function WriteRaw(fp: Fp, ty: SignalType, endian: Endian, raw: Raw): Option<seq<byte>> {
    if ty.IsFloat() then
      if raw.Int? || raw.f.NonFinite? then None
      else
        var be := if ty.TyF32? then fp.f32To(raw.f.r) else Some(fp.f64To(raw.f.r));
        if be.None? || endian.Big? then be else Some(Reverse(be.value))
    else if raw.Float? || !Fits(ty, raw.i) then None
    else Some(WriteInt(ty.IsSigned(), endian, ty.Size(), raw.i))
  }

  /** The catalog's raw range of an integer type is its wire range. */
  lemma FitsIsIntRange(ty: SignalType, i: int)
    requires ty.IntRange().Some?
    ensures Fits(ty, i) <==> ty.IntRange().value.0 <= i <= ty.IntRange().value.1
  {
    assert Pow256(1) == 0x100 && Pow256(2) == 0x1_0000;
    assert Pow256(3) == 0x100_0000 && Pow256(4) == 0x1_0000_0000;
    assert Pow256(5) == 0x100_0000_0000 && Pow256(6) == 0x1_0000_0000_0000;
    assert Pow256(7) == 0x100_0000_0000_0000 && Pow256(8) == 0x1_0000_0000_0000_0000;
  }

  /** Writing succeeds exactly on the type's range and reads back the same integer. */
  lemma RawWriteRead(fp: Fp, ty: SignalType, endian: Endian, i: int)
    requires !ty.IsFloat()
    ensures WriteRaw(fp, ty, endian, Int(i)).Some? <==> Fits(ty, i)
    ensures Fits(ty, i) ==>
              var p := WriteRaw(fp, ty, endian, Int(i)).value;
              |p| == ty.Size() && ReadRaw(fp, ty, endian, p) == Some(Int(i))
  {
    if Fits(ty, i) {
      IntWriteRead(ty.IsSigned(), endian, ty.Size(), i);
    }
  }

  /** Every payload of the right length reads to an integer of the type's range that writes back to it. */
  lemma RawReadWrite(fp: Fp, ty: SignalType, endian: Endian, p: seq<byte>)
    requires !ty.IsFloat() && |p| == ty.Size()
    ensures ReadRaw(fp, ty, endian, p).Some? && ReadRaw(fp, ty, endian, p).value.Int?
    ensures Fits(ty, ReadRaw(fp, ty, endian, p).value.i)
    ensures WriteRaw(fp, ty, endian, ReadRaw(fp, ty, endian, p).value) == Some(p)
  {
    IntReadWrite(ty.IsSigned(), endian, p);
  }

  /** The two byte orders of one integer are each other's reversal, on writing and on reading. */
  lemma ByteOrdersMirror(signed: bool, n: nat, i: int, p: seq<byte>)
    requires FitsIn(signed, n, i)
    ensures WriteInt(signed, Little, n, i) == Reverse(WriteInt(signed, Big, n, i))
    ensures ReadInt(signed, Little, p) == ReadInt(signed, Big, Reverse(p))
  {
    ToLeIsReversedToBe(n, if i < 0 then i + Pow256(n) else i);
    LeIsReversedBe(p);
  }

  // ---- physical values --------------------------------------------------

  /** The double a raw payload value converts to. */
  function RawNumber(fp: Fp, raw: Raw): F64 {
    match raw
    case Int(i) => fp.round(i as real)
    case Float(f) => f
  }

  function Physical(fp: Fp, def: SignalDef, raw: Raw): F64 {
    FAdd(fp, FMul(fp, RawNumber(fp, raw), def.scale), def.offset)
  }

  /** From payload bytes to a value: size, raw integer or float, then by the kind of the signal. */
  function DecodeValue(fp: Fp, s: Signal, payload: seq<byte>): Result<SignalValue, FrameErrorKind> {
    var raw := ReadRaw(fp, s.def.ty, s.Endianness(), payload);
    if |payload| != s.def.ty.Size() || raw.None? then Err(LengthMismatch(s.def.ty.Size(), |payload|))
    else
      match (s.Kind(), raw.value)
      case (KindBool, Int(i)) =>
        if i == 0 then Ok(Bool(false)) else if i == 1 then Ok(Bool(true)) else Err(InvalidValue)
      case (KindEnum, Int(i)) =>
        if i in s.enumByRaw then Ok(Enum(s.enumByRaw[i])) else Err(InvalidValue)
      case (KindNum, raw) =>
        var phys := Physical(fp, s.def, raw);
        if phys.Finite? then Ok(Num(phys.r)) else Err(InvalidValue)
      case _ => Err(InvalidValue)
  }

  function Scaled(fp: Fp, def: SignalDef, v: real): F64 {
    FDiv(fp, FSub(fp, Finite(v), def.offset), def.scale)
  }

  /** From a value to payload bytes; the value has to be of the signal's kind. */
  function EncodeValue(fp: Fp, s: Signal, value: SignalValue): Result<seq<byte>, EncodeError> {
    var number := if value.Num? then Finite(value.n) else NonFinite;
    var raw: Result<Raw, EncodeError> :=
      match (s.Kind(), value)
      case (KindBool, Bool(b)) => Ok(Int(if b then 1 else 0))
      case (KindEnum, Enum(text)) =>
        if text in s.enumByLabel then Ok(Int(s.enumByLabel[text])) else Err(UnknownEnumLabel(s.def.name, text))
      case (KindNum, Num(v)) =>
        var scaled := Scaled(fp, s.def, v);
        if scaled.NonFinite? then Err(OutOfRange(s.def.name, number))
        else if s.def.ty.IsFloat() then Ok(Float(scaled))
        else Ok(Int(SaturateI128(RoundHalfAway(scaled.r))))
      case _ => Err(KindMismatch(s.def.name, value));
    if raw.Err? then Err(raw.error)
    else
      var bytes := WriteRaw(fp, s.def.ty, s.Endianness(), raw.value);
      if bytes.None? then Err(OutOfRange(s.def.name, number)) else Ok(bytes.value)
  }

  /** Decoding and encoding give a bool or enum payload back, whenever it decodes at all. */
  lemma PayloadRoundTrip(fp: Fp, s: Signal, p: seq<byte>)
    requires Built(s) && !s.Kind().KindNum?
    requires DecodeValue(fp, s, p).Ok?
    ensures EncodeValue(fp, s, DecodeValue(fp, s, p).value) == Ok(p)
  {
    RawReadWrite(fp, s.def.ty, s.Endianness(), p);
    var i := ReadRaw(fp, s.def.ty, s.Endianness(), p).value.i;
    if s.Kind().KindEnum? {
      var k := RawTableFinds(s.def.enumMap.value, i);
      LabelTableFinds(s.def.enumMap.value, k);
    }
  }

  /** Whether encoding `text` and decoding the payload gives `text` back. */
  predicate LabelSurvives(fp: Fp, s: Signal, text: string) {
    && EncodeValue(fp, s, Enum(text)).Ok?
    && DecodeValue(fp, s, EncodeValue(fp, s, Enum(text)).value) == Ok(Enum(text))
  }

  predicate DistinctKeys(entries: seq<(string, string)>) {
    forall i, j :: 0 <= i < j < |entries| ==> EntryRaw(entries[i]) != EntryRaw(entries[j])
  }

  /** Entry `i`'s label survives the wire exactly when no later key parses to the same integer. */
  lemma LabelSurvivesIff(fp: Fp, s: Signal, i: nat)
    requires Built(s) && s.Kind().KindEnum? && i < |s.def.enumMap.value|
    ensures var es := s.def.enumMap.value;
            LabelSurvives(fp, s, es[i].1) <==> forall j :: i < j < |es| ==> EntryRaw(es[j]) != EntryRaw(es[i])
  {
    var es := s.def.enumMap.value;
    LabelTableFinds(es, i);
    var raw := EntryRaw(es[i]);
    assert ValidEntry(s.def.ty, es[i]);
    FitsIsIntRange(s.def.ty, raw);
    RawWriteRead(fp, s.def.ty, s.Endianness(), raw);
    RawTableHas(es, i);
    var k := RawTableFinds(es, raw);
    if i < k {
      assert es[i].1 != es[k].1;
    }
  }

  /**
   * Every label of an enum signal survives encoding and decoding if and only if its keys
   * parse to distinct integers.
   */
  lemma LabelsRoundTripIff(fp: Fp, s: Signal)
    requires Built(s) && s.Kind().KindEnum?
    ensures (forall text :: text in s.enumByLabel ==> LabelSurvives(fp, s, text)) <==> DistinctKeys(s.def.enumMap.value)
  {
    var es := s.def.enumMap.value;
    forall i | 0 <= i < |es|
      ensures es[i].1 in s.enumByLabel
      ensures LabelSurvives(fp, s, es[i].1) <==> forall j :: i < j < |es| ==> EntryRaw(es[j]) != EntryRaw(es[i])
    {
      LabelTableFinds(es, i);
      LabelSurvivesIff(fp, s, i);
    }
    forall text | text in s.enumByLabel && DistinctKeys(es)
      ensures LabelSurvives(fp, s, text)
    {
      var i := LabelTableOnly(es, text);
      assert es[i].1 == text;
    }
    if forall text :: text in s.enumByLabel ==> LabelSurvives(fp, s, text) {
      forall i, j | 0 <= i < j < |es|
        ensures EntryRaw(es[i]) != EntryRaw(es[j])
      {
        assert LabelSurvives(fp, s, es[i].1);
      }
    }
  }

  /** The keys "01" and "1" name one raw value, so an accepted signal can lose a label. */
  lemma CollidingKeysLoseLabel(fp: Fp)
    ensures var entries := [("01", "P"), ("1", "R")];
            var def := SignalDef(300, "gear", TyU8, None, Finite(1.0), Finite(0.0), None, Some(entries));
            var s := Signal(def, RawTable(entries), LabelTable(entries));
            Built(s) && s.Kind().KindEnum? && !LabelSurvives(fp, s, "P")
  {
    var entries := [("01", "P"), ("1", "R")];
    assert "01"[..1] == "0" && "0"[..0] == [] && "1"[..0] == [];
    assert DigitsValue("0") == 0 && DigitsValue("01") == 1 && DigitsValue("1") == 1;
    assert ValidEntry(TyU8, entries[0]) && ValidEntry(TyU8, entries[1]);
    var def := SignalDef(300, "gear", TyU8, None, Finite(1.0), Finite(0.0), None, Some(entries));
    assert ValidDef(def);
    LabelSurvivesIff(fp, Signal(def, RawTable(entries), LabelTable(entries)), 0);
  }

  /** A number is rejected, never clamped: encoding fails exactly when the rounded raw value does not fit. */
  lemma NumberRejectedIff(fp: Fp, s: Signal, v: real)
    requires Built(s) && s.Kind().KindNum? && !s.def.ty.IsFloat()
    ensures var scaled := Scaled(fp, s.def, v);
            var r := EncodeValue(fp, s, Num(v));
            if scaled.Finite? && Fits(s.def.ty, RoundHalfAway(scaled.r))
            then r.Ok? && |r.value| == s.def.ty.Size()
                 && ReadRaw(fp, s.def.ty, s.Endianness(), r.value) == Some(Int(RoundHalfAway(scaled.r)))
            else r == Err(OutOfRange(s.def.name, Finite(v)))
  {
    var scaled := Scaled(fp, s.def, v);
    if scaled.Finite? {
      var i := RoundHalfAway(scaled.r);
      FitsIsIntRange(s.def.ty, i);
      FitsIsIntRange(s.def.ty, SaturateI128(i));
      RawWriteRead(fp, s.def.ty, s.Endianness(), SaturateI128(i));
    }
  }

  ghost predicate ExactArithmetic(fp: Fp) {
    forall x :: fp.round(x) == Finite(x)
  }

  lemma RoundHalfAwayNear(x: real)
    ensures -0.5 <= RoundHalfAway(x) as real - x <= 0.5
  {
  }

  /** In exact arithmetic an encoded number decodes to within half a scale step of the original. */
  lemma NumberWithinHalfStep(fp: Fp, s: Signal, v: real)
    requires Built(s) && s.Kind().KindNum? && !s.def.ty.IsFloat() && ExactArithmetic(fp)
    requires EncodeValue(fp, s, Num(v)).Ok?
    ensures var d := DecodeValue(fp, s, EncodeValue(fp, s, Num(v)).value);
            d.Ok? && d.value.Num? && 2.0 * Abs(d.value.n - v) <= Abs(s.def.scale.r)
  {
    var x := Scaled(fp, s.def, v).r;
    var p := EncodeValue(fp, s, Num(v)).value;
    assert ReadRaw(fp, s.def.ty, s.Endianness(), p) == Some(Int(RoundHalfAway(x))) && |p| == s.def.ty.Size() by {
      NumberRejectedIff(fp, s, v);
    }
    ExactPhysical(fp, s.def, RoundHalfAway(x), v);
  }

  lemma ExactPhysical(fp: Fp, def: SignalDef, i: int, v: real)
    requires ValidDef(def) && ExactArithmetic(fp)
    requires i == RoundHalfAway(Scaled(fp, def, v).r)
    ensures var phys := Physical(fp, def, Int(i)); phys.Finite? && 2.0 * Abs(phys.r - v) <= Abs(def.scale.r)
  {
    var k, o := def.scale.r, def.offset.r;
    var x := Scaled(fp, def, v).r;
    assert x == Div(v - o, k);
    DivideMultiply(v - o, k);
    RoundHalfAwayNear(x);
    assert Physical(fp, def, Int(i)) == Finite(i as real * k + o);
    StepError(i as real, x, v, k, o);
  }

  lemma DivideMultiply(a: real, k: real)
    requires k != 0.0
    ensures a / k * k == a
  {
  }

  lemma StepError(i: real, x: real, v: real, k: real, o: real)
    requires x * k == v - o && -0.5 <= i - x <= 0.5
    ensures 2.0 * Abs(i * k + o - v) <= Abs(k)
  {
    var e := i - x;
    assert e * k == i * k - x * k;
    HalfStep(e, k, i * k + o - v);
  }

  lemma HalfStep(e: real, k: real, p: real)
    requires -0.5 <= e <= 0.5 && p == e * k
    ensures 2.0 * Abs(p) <= Abs(k)
  {
    if k >= 0.0 {
      assert -0.5 * k <= e * k <= 0.5 * k;
    } else {
      assert 0.5 * k <= e * k <= -0.5 * k;
    }
  }
}
