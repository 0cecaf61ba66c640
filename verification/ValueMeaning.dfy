/** What payloads mean: every kind of signal decoded and encoded, spelled out over the catalog entry. */
module ValueMeaning {
  import opened Prelude
  import opened Bytes
  import opened Catalog
  import opened Values

  // ---- decoding ---------------------------------------------------------

  /** A payload of another size than the type's is refused with both sizes. */
  lemma WrongLength(fp: Fp, s: Signal, p: seq<byte>)
    requires |p| != s.def.ty.Size()
    ensures DecodeValue(fp, s, p) == Err(LengthMismatch(s.def.ty.Size(), |p|))
  {
  }

  /** A bool is the byte 0 or the byte 1. */
  lemma DecodedBool(fp: Fp, s: Signal, x: byte)
    requires s.def.ty.TyBool?
    ensures DecodeValue(fp, s, [x]) ==
            if x == 0 then Ok(Bool(false)) else if x == 1 then Ok(Bool(true)) else Err(InvalidValue)
  {
    OneByteReads(s.Endianness(), x);
  }

  lemma OneByteReads(endian: Endian, x: byte)
    ensures ReadInt(false, endian, [x]) == x
  {
    assert [x][..0] == [] && [x][1..] == [];
    assert FromBe([x]) == x && FromLe([x]) == x;
  }

  /** Entry `k` is the last one of an enum map whose key is the text of `raw`. */
  predicate IsLastEntry(entries: seq<(string, string)>, raw: int, k: int) {
    && 0 <= k < |entries| && EntryRaw(entries[k]) == raw
    && forall j :: k < j < |entries| ==> EntryRaw(entries[j]) != raw
  }

  /** An enum payload decodes to the label of the last entry with its raw value, and to nothing without one. */
  lemma DecodedEnum(fp: Fp, s: Signal, p: seq<byte>, raw: int)
    requires Built(s) && s.def.enumMap.Some? && |p| == s.def.ty.Size()
    requires raw == ReadInt(s.def.ty.IsSigned(), s.Endianness(), p)
    ensures forall k :: IsLastEntry(s.def.enumMap.value, raw, k) ==>
              DecodeValue(fp, s, p) == Ok(Enum(s.def.enumMap.value[k].1))
    ensures (forall k :: 0 <= k < |s.def.enumMap.value| ==> EntryRaw(s.def.enumMap.value[k]) != raw) ==>
              DecodeValue(fp, s, p) == Err(InvalidValue)
  {
    var es := s.def.enumMap.value;
    if raw in RawTable(es) {
      var i := RawTableFinds(es, raw);
      forall k | IsLastEntry(es, raw, k) ensures k == i {
      }
    } else {
      forall k | 0 <= k < |es| ensures EntryRaw(es[k]) != raw {
        RawTableHas(es, k);
      }
    }
  }

  /** What a raw value becomes: times the scale, plus the offset, rounded each time, if all of it is finite. */
  ghost predicate ScalesTo(fp: Fp, def: SignalDef, raw: F64, v: real) {
    exists a: real, b: real ::
      && raw == Finite(a) && def.scale.Finite? && def.offset.Finite?
      && fp.round(Mul(a, def.scale.r)) == Finite(b) && fp.round(b + def.offset.r) == Finite(v)
  }

  /** A number is the scaled raw value, and not a number if any step is not finite. */
  lemma DecodedNumber(fp: Fp, s: Signal, p: seq<byte>)
    requires Built(s) && !s.def.ty.TyBool? && s.def.enumMap.None? && |p| == s.def.ty.Size()
    ensures var raw := if s.def.ty.IsFloat() then FloatOf(fp, s.def.ty, s.Endianness(), p)
                       else fp.round(ReadInt(s.def.ty.IsSigned(), s.Endianness(), p) as real);
            && (forall v :: ScalesTo(fp, s.def, raw, v) ==> DecodeValue(fp, s, p) == Ok(Num(v)))
            && ((forall v :: !ScalesTo(fp, s.def, raw, v)) ==> DecodeValue(fp, s, p) == Err(InvalidValue))
  {
    var raw := if s.def.ty.IsFloat() then FloatOf(fp, s.def.ty, s.Endianness(), p)
               else fp.round(ReadInt(s.def.ty.IsSigned(), s.Endianness(), p) as real);
    NumberIsPhysical(fp, s, p, raw);
    PhysicalScales(fp, s.def, raw);
  }

  lemma NumberIsPhysical(fp: Fp, s: Signal, p: seq<byte>, raw: F64)
    requires !s.def.ty.TyBool? && s.def.enumMap.None? && |p| == s.def.ty.Size()
    requires raw == if s.def.ty.IsFloat() then FloatOf(fp, s.def.ty, s.Endianness(), p)
                    else fp.round(ReadInt(s.def.ty.IsSigned(), s.Endianness(), p) as real)
    ensures var v := FAdd(fp, FMul(fp, raw, s.def.scale), s.def.offset);
            DecodeValue(fp, s, p) == if v.Finite? then Ok(Num(v.r)) else Err(InvalidValue)
  {
  }

  lemma PhysicalScales(fp: Fp, def: SignalDef, raw: F64)
    requires def.scale.Finite? && def.offset.Finite?
    ensures var v := FAdd(fp, FMul(fp, raw, def.scale), def.offset);
            && (forall w :: ScalesTo(fp, def, raw, w) ==> v == Finite(w))
            && ((forall w :: !ScalesTo(fp, def, raw, w)) ==> v.NonFinite?)
  {
    var v := FAdd(fp, FMul(fp, raw, def.scale), def.offset);
    if v.Finite? {
      var a, b := raw.r, fp.round(Mul(raw.r, def.scale.r)).r;
      assert fp.round(Mul(a, def.scale.r)) == Finite(b) && fp.round(b + def.offset.r) == Finite(v.r);
      assert ScalesTo(fp, def, raw, v.r);
    }
  }

  /** The double that the bytes of a float payload stand for; the bytes are reversed when little-endian. */
  function FloatOf(fp: Fp, ty: SignalType, endian: Endian, p: seq<byte>): F64 {
    var be := if endian.Little? then Reverse(p) else p;
    if ty.TyF32? then fp.f32Of(be) else fp.f64Of(be)
  }

  /** In exact arithmetic an integer payload is its raw value times the scale plus the offset. */
  lemma DecodedExactly(fp: Fp, s: Signal, p: seq<byte>)
    requires Built(s) && !s.def.ty.TyBool? && s.def.enumMap.None? && !s.def.ty.IsFloat() && |p| == s.def.ty.Size()
    requires ExactArithmetic(fp)
    ensures DecodeValue(fp, s, p) ==
            Ok(Num(Mul(ReadInt(s.def.ty.IsSigned(), s.Endianness(), p) as real, s.def.scale.r) + s.def.offset.r))
  {
  }

  // ---- encoding ---------------------------------------------------------

  /** A value of another kind than the signal's is refused as such. */
  lemma KindsMustMatch(fp: Fp, s: Signal, value: SignalValue)
    requires if s.def.ty.TyBool? then !value.Bool? else if s.def.enumMap.Some? then !value.Enum? else !value.Num?
    ensures EncodeValue(fp, s, value) == Err(KindMismatch(s.def.name, value))
  {
  }

  /** A bool is written as the byte 0 or the byte 1. */
  lemma EncodedBool(fp: Fp, s: Signal, b: bool)
    requires s.def.ty.TyBool?
    ensures EncodeValue(fp, s, Bool(b)) == Ok([if b then 1 else 0])
  {
    var x: byte := if b then 1 else 0;
    OneByteReads(s.Endianness(), x);
    RawReadWrite(fp, s.def.ty, s.Endianness(), [x]);
  }

  /** A label is written as its entry's key; a text that is no label is refused as such. */
  lemma EncodedLabel(fp: Fp, s: Signal, text: string)
    requires Built(s) && s.def.enumMap.Some?
    ensures forall k :: 0 <= k < |s.def.enumMap.value| && s.def.enumMap.value[k].1 == text ==>
              WritesInt(fp, s, EncodeValue(fp, s, Enum(text)), EntryRaw(s.def.enumMap.value[k]))
    ensures (forall k :: 0 <= k < |s.def.enumMap.value| ==> s.def.enumMap.value[k].1 != text) ==>
              EncodeValue(fp, s, Enum(text)) == Err(UnknownEnumLabel(s.def.name, text))
  {
    var es := s.def.enumMap.value;
    forall k | 0 <= k < |es| && es[k].1 == text
      ensures WritesInt(fp, s, EncodeValue(fp, s, Enum(text)), EntryRaw(es[k]))
    {
      LabelTableFinds(es, k);
      assert ValidEntry(s.def.ty, es[k]);
      FitsIsIntRange(s.def.ty, EntryRaw(es[k]));
      RawWriteRead(fp, s.def.ty, s.Endianness(), EntryRaw(es[k]));
    }
    if text in LabelTable(es) {
      var i := LabelTableOnly(es, text);
      assert es[i].1 == text;
    }
  }

  /** The encoding succeeded with bytes of the type's size that read as `i`. */
  predicate WritesInt(fp: Fp, s: Signal, r: Result<seq<byte>, EncodeError>, i: int) {
    r.Ok? && |r.value| == s.def.ty.Size() && ReadInt(s.def.ty.IsSigned(), s.Endianness(), r.value) == i
  }

  /** Rounding to the nearest integer takes halves away from zero. */
  lemma HalvesAwayFromZero(n: nat)
    ensures RoundHalfAway(n as real + 0.5) == n + 1 && RoundHalfAway(-(n as real) - 0.5) == -(n as int) - 1
  {
  }

  // ---- float payloads ---------------------------------------------------

  /** The two byte orders of a float payload are each other's reversal, on reading and on writing. */
  lemma FloatsMirror(fp: Fp, ty: SignalType, p: seq<byte>, f: F64)
    requires ty.IsFloat()
    ensures ReadRaw(fp, ty, Little, p) == ReadRaw(fp, ty, Big, Reverse(p))
    ensures var big, little := WriteRaw(fp, ty, Big, Float(f)), WriteRaw(fp, ty, Little, Float(f));
            if big.None? then little.None? else little == Some(Reverse(big.value))
  {
  }

  /** The double `x` converts to bytes of a float type's size and back to itself, if it converts at all. */
  predicate ConvertsBack(fp: Fp, ty: SignalType, x: real) {
    if ty.TyF32? then fp.f32To(x).Some? ==> |fp.f32To(x).value| == 4 && fp.f32Of(fp.f32To(x).value) == Finite(x)
    else |fp.f64To(x)| == 8 && fp.f64Of(fp.f64To(x)) == Finite(x)
  }

  /**
   * In exact arithmetic, a number of a float signal survives encoding and decoding whenever
   * the scaled number, which is what goes over the wire, converts to bytes and back.
   */
  lemma FloatsSurvive(fp: Fp, s: Signal, v: real)
    requires Built(s) && s.def.ty.IsFloat() && s.def.enumMap.None? && ExactArithmetic(fp)
    requires ConvertsBack(fp, s.def.ty, Div(v - s.def.offset.r, s.def.scale.r))
    requires EncodeValue(fp, s, Num(v)).Ok?
    ensures DecodeValue(fp, s, EncodeValue(fp, s, Num(v)).value) == Ok(Num(v))
  {
    var k, o := s.def.scale.r, s.def.offset.r;
    var x := Div(v - o, k);
    assert Scaled(fp, s.def, v) == Finite(x);
    FloatWriteRead(fp, s.def.ty, s.Endianness(), x);
    DivideMultiply(v - o, k);
    assert Mul(x, k) == v - o;
  }

  lemma FloatWriteRead(fp: Fp, ty: SignalType, endian: Endian, x: real)
    requires ty.IsFloat() && ConvertsBack(fp, ty, x)
    ensures var p := WriteRaw(fp, ty, endian, Float(Finite(x)));
            p.Some? ==> |p.value| == ty.Size() && ReadRaw(fp, ty, endian, p.value) == Some(Float(Finite(x)))
  {
    if ty.TyF32? {
      var p := fp.f32To(x);
      if p.Some? {
        assert Reverse(Reverse(p.value)) == p.value;
      }
    } else {
      var p := fp.f64To(x);
      assert |p| == 8 && Reverse(Reverse(p)) == p;
    }
  }
}
