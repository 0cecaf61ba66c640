/** Per-model signal catalog: wire types, enum lookup tables, lookups by id and by name. */
module Catalog {
  import opened Prelude

  datatype SignalType =
    | TyBool | TyU8 | TyI8 | TyU16 | TyI16 | TyU32 | TyI32 | TyU64 | TyI64 | TyF32 | TyF64
  {
    /** How many bytes a payload of this type has on the wire. */
    function Size(): nat {
      match this
      case TyBool | TyU8 | TyI8 => 1
      case TyU16 | TyI16 => 2
      case TyU32 | TyI32 | TyF32 => 4
      case TyU64 | TyI64 | TyF64 => 8
    }

    predicate IsFloat() { TyF32? || TyF64? }

    predicate IsSigned() { TyI8? || TyI16? || TyI32? || TyI64? }

    /** Inclusive raw range of the integer types; bool and floats have none. */
    function IntRange(): Option<(int, int)> {
      match this
      case TyU8 => Some((0, 0xFF))
      case TyI8 => Some((-0x80, 0x7F))
      case TyU16 => Some((0, 0xFFFF))
      case TyI16 => Some((-0x8000, 0x7FFF))
      case TyU32 => Some((0, 0xFFFF_FFFF))
      case TyI32 => Some((-0x8000_0000, 0x7FFF_FFFF))
      case TyU64 => Some((0, 0xFFFF_FFFF_FFFF_FFFF))
      case TyI64 => Some((-0x8000_0000_0000_0000, 0x7FFF_FFFF_FFFF_FFFF))
      case TyBool | TyF32 | TyF64 => None
    }
  }

  datatype Endian = Big | Little

  datatype ValueKind = KindBool | KindNum | KindEnum

  /**
   * One signal definition of the catalog document. `enumMap` lists the entries of the
   * document's key-sorted map in iteration order.
   */
  datatype SignalDef = SignalDef(
    id: u16, name: string, ty: SignalType, endian: Option<Endian>, scale: F64, offset: F64,
    unit: Option<string>, enumMap: Option<seq<(string, string)>>)

  datatype CatalogSpec = CatalogSpec(model: string, version: nat, signals: seq<SignalDef>)

  datatype CatalogError =
    | EmptyModel
    | DuplicateId(id: u16)
    | DuplicateName(name: string)
    | InvalidName(name: string)
    | MissingEndian(name: string)
    | InvalidScaleOffset(name: string)
    | InvalidEnum(signal: string)

  /** A catalog entry that passed the checks, with both directions of its enum. */
  datatype Signal = Signal(def: SignalDef, enumByRaw: map<int, string>, enumByLabel: map<string, int>) {
    /** `Big` stands in where the entry gives no byte order. */
    function Endianness(): Endian { def.endian.GetOr(Big) }

    function Kind(): ValueKind {
      if def.ty.TyBool? then KindBool else if def.enumMap.Some? then KindEnum else KindNum
    }
  }

  /** All entries of a catalog, and where each id and name is found. */
  datatype SignalCatalog = SignalCatalog(
    model: string, version: nat, signals: seq<Signal>, byId: map<u16, nat>, byName: map<string, nat>)
  {
    function ById(id: u16): Option<Signal> {
      if id in byId && byId[id] < |signals| then Some(signals[byId[id]]) else None
    }

    function ByName(name: string): Option<Signal> {
      if name in byName && byName[name] < |signals| then Some(signals[byName[name]]) else None
    }
  }

  // ---- text forms -------------------------------------------------------

  predicate IsDigit(c: char) { '0' <= c <= '9' }

  predicate IsNameChar(c: char) { 'a' <= c <= 'z' || IsDigit(c) || c == '_' }

  predicate IsValidSignalName(name: string) {
    1 <= |name| <= 64 && 'a' <= name[0] <= 'z' && forall c :: c in name ==> IsNameChar(c)
  }

  predicate IsWhitespace(c: char) {
    var u := c as int;
    9 <= u <= 13 || u in {0x20, 0x85, 0xA0, 0x1680, 0x2028, 0x2029, 0x202F, 0x205F, 0x3000} || 0x2000 <= u <= 0x200A
  }

  /** `s.trim().is_empty()`. */
  predicate IsBlank(s: string) { forall c :: c in s ==> IsWhitespace(c) }

  /** Decimal value of a string of digits. */
  function DigitsValue(s: string): int {
    if s == [] then 0 else 10 * DigitsValue(s[..|s| - 1]) + (s[|s| - 1] as int - '0' as int)
  }

  const I128_MIN := -0x8000_0000_0000_0000_0000_0000_0000_0000
  const I128_MAX := 0x7FFF_FFFF_FFFF_FFFF_FFFF_FFFF_FFFF_FFFF

  /** `str::parse::<i128>`: an optional sign, then at least one digit, within the type's range. */
  function ParseInt(s: string): Option<int> {
    var signed := s != [] && s[0] in "+-";
    var digits := if signed then s[1..] else s;
    if digits == [] || !(forall c :: c in digits ==> IsDigit(c)) then None
    else
      var v := if signed && s[0] == '-' then -DigitsValue(digits) else DigitsValue(digits);
      if I128_MIN <= v <= I128_MAX then Some(v) else None
  }

  function DigitChar(d: nat): (c: char)
    requires d < 10
    ensures IsDigit(c) && c as int - '0' as int == d
  {
    (d + '0' as int) as char
  }

  /** The decimal text of a number. */
  function Decimal(n: nat): (s: string)
    ensures s != []
  {
    (if n < 10 then [] else Decimal(n / 10)) + [DigitChar(n % 10)]
  }

  function DecimalText(i: int): string {
    if i < 0 then ['-'] + Decimal(-i) else Decimal(i)
  }

  lemma DigitsSnoc(s: string, c: char)
    ensures DigitsValue(s + [c]) == 10 * DigitsValue(s) + (c as int - '0' as int)
  {
    assert (s + [c])[..|s|] == s;
  }

  lemma {:induction false} DecimalReads(n: nat)
    ensures DigitsValue(Decimal(n)) == n && forall c :: c in Decimal(n) ==> IsDigit(c)
  {
    if n < 10 {
      DigitsSnoc([], DigitChar(n));
    } else {
      DecimalReads(n / 10);
      DigitsSnoc(Decimal(n / 10), DigitChar(n % 10));
      assert 10 * (n / 10) + n % 10 == n;
    }
  }

  lemma ParsesDigits(digits: string, v: int)
    requires digits != [] && (forall c :: c in digits ==> IsDigit(c)) && v == DigitsValue(digits)
    ensures I128_MIN <= v <= I128_MAX ==> ParseInt(digits) == Some(v)
    ensures I128_MIN <= -v <= I128_MAX ==> ParseInt(['-'] + digits) == Some(-v)
  {
    assert digits[0] in digits && IsDigit(digits[0]);
    assert (['-'] + digits)[1..] == digits;
  }

  /** The decimal text of any 128-bit integer, with its minus sign if negative, parses to that integer. */
  lemma DecimalParses(i: int)
    requires I128_MIN <= i <= I128_MAX
    ensures ParseInt(DecimalText(i)) == Some(i)
  {
    var n := if i < 0 then -i else i;
    DecimalReads(n);
    ParsesDigits(Decimal(n), n);
  }

  // ---- signals ----------------------------------------------------------

  /** Entry `i` of an enum map is acceptable for `ty` on its own. */
  predicate ValidEntry(ty: SignalType, entry: (string, string)) {
    && ty.IntRange().Some?
    && ParseInt(entry.0).Some?
    && ty.IntRange().value.0 <= ParseInt(entry.0).value <= ty.IntRange().value.1
    && entry.1 != ""
  }

  predicate ValidEntries(ty: SignalType, entries: seq<(string, string)>) {
    && (forall i :: 0 <= i < |entries| ==> ValidEntry(ty, entries[i]))
    && (forall i, j :: 0 <= i < j < |entries| ==> entries[i].1 != entries[j].1)
  }

  /** The catalog rules for one signal, as docs/PROTOCOL.md lists them. */
  predicate ValidDef(def: SignalDef) {
    && IsValidSignalName(def.name)
    && (def.ty.Size() > 1 ==> def.endian.Some?)
    && def.scale.Finite? && def.scale.r != 0.0 && def.offset.Finite?
    && (def.enumMap.Some? ==>
          && def.ty.IntRange().Some?
          && def.enumMap.value != []
          && ValidEntries(def.ty, def.enumMap.value))
  }

  function EntryRaw(entry: (string, string)): int {
    ParseInt(entry.0).GetOr(0)
  }

  /** Lookup by raw value: a later entry replaces an earlier one with the same parsed key. */
  function RawTable(entries: seq<(string, string)>): map<int, string> {
    if entries == [] then map[]
    else RawTable(entries[..|entries| - 1])[EntryRaw(entries[|entries| - 1]) := entries[|entries| - 1].1]
  }

  /** Lookup by label. */
  function LabelTable(entries: seq<(string, string)>): map<string, int> {
    if entries == [] then map[]
    else LabelTable(entries[..|entries| - 1])[entries[|entries| - 1].1 := EntryRaw(entries[|entries| - 1])]
  }

  /** A signal as `NewSignal` builds it. */
  predicate Built(s: Signal) {
    && ValidDef(s.def)
    && s.enumByRaw == RawTable(s.def.enumMap.GetOr([]))
    && s.enumByLabel == LabelTable(s.def.enumMap.GetOr([]))
  }

  /** With unique labels, every label maps to its own raw value. */
  lemma {:induction false} LabelTableFinds(entries: seq<(string, string)>, i: nat)
    requires i < |entries|
    requires forall j, k :: 0 <= j < k < |entries| ==> entries[j].1 != entries[k].1
    ensures entries[i].1 in LabelTable(entries) && LabelTable(entries)[entries[i].1] == EntryRaw(entries[i])
  {
    if i < |entries| - 1 {
      assert entries[..|entries| - 1][i] == entries[i];
      LabelTableFinds(entries[..|entries| - 1], i);
    }
  }

  lemma {:induction false} LabelTableOnly(entries: seq<(string, string)>, l: string) returns (i: nat)
    requires l in LabelTable(entries)
    ensures i < |entries| && entries[i].1 == l
  {
    if entries[|entries| - 1].1 == l {
      i := |entries| - 1;
    } else {
      i := LabelTableOnly(entries[..|entries| - 1], l);
    }
  }

  /** A raw value maps to the label of the last entry whose key parses to it. */
  lemma {:induction false} RawTableFinds(entries: seq<(string, string)>, raw: int) returns (i: nat)
    requires raw in RawTable(entries)
    ensures i < |entries| && EntryRaw(entries[i]) == raw && RawTable(entries)[raw] == entries[i].1
    ensures forall j :: i < j < |entries| ==> EntryRaw(entries[j]) != raw
  {
    var last := |entries| - 1;
    if EntryRaw(entries[last]) == raw {
      i := last;
    } else {
      i := RawTableFinds(entries[..last], raw);
      assert entries[..last][i] == entries[i];
    }
  }

  lemma {:induction false} RawTableHas(entries: seq<(string, string)>, i: nat)
    requires i < |entries|
    ensures EntryRaw(entries[i]) in RawTable(entries)
  {
    if i < |entries| - 1 {
      assert entries[..|entries| - 1][i] == entries[i];
      RawTableHas(entries[..|entries| - 1], i);
    }
  }

  /** What an invalid definition is refused for; the name is checked first, the enum last. */
  function FirstProblem(def: SignalDef): CatalogError {
    if !IsValidSignalName(def.name) then InvalidName(def.name)
    else if def.ty.Size() > 1 && def.endian.None? then MissingEndian(def.name)
    else if def.scale.NonFinite? || def.scale.r == 0.0 || def.offset.NonFinite? then InvalidScaleOffset(def.name)
    else InvalidEnum(def.name)
  }

  method NewSignal(def: SignalDef) returns (r: Result<Signal, CatalogError>)
    ensures r.Ok? <==> ValidDef(def)
    ensures r.Ok? ==> r.value.def == def && Built(r.value)
    ensures r.Err? ==> r.error == FirstProblem(def)
  {
    if !IsValidSignalName(def.name) {
      return Err(InvalidName(def.name));
    }
    if def.ty.Size() > 1 && def.endian.None? {
      return Err(MissingEndian(def.name));
    }
    if !def.scale.Finite? || def.scale.r == 0.0 || !def.offset.Finite? {
      return Err(InvalidScaleOffset(def.name));
    }
    if def.enumMap.None? {
      return Ok(Signal(def, map[], map[]));
    }
    if def.ty.IntRange().None? || def.enumMap.value == [] {
      return Err(InvalidEnum(def.name));
    }
    var tables := BuildTables(def.ty, def.enumMap.value);
    r := if tables.None? then Err(InvalidEnum(def.name)) else Ok(Signal(def, tables.value.0, tables.value.1));
  }

  /** The enum part of `Signal::new`: one pass over the map, stopping at the first bad entry. */
  method BuildTables(ty: SignalType, entries: seq<(string, string)>)
    returns (r: Option<(map<int, string>, map<string, int>)>)
    requires ty.IntRange().Some?
    ensures r.Some? <==> ValidEntries(ty, entries)
    ensures r.Some? ==> r.value == (RawTable(entries), LabelTable(entries))
  {
    var byRaw: map<int, string> := map[];
    var byLabel: map<string, int> := map[];
    for i := 0 to |entries|
      invariant ValidEntries(ty, entries[..i])
      invariant byRaw == RawTable(entries[..i]) && byLabel == LabelTable(entries[..i])
    {
      var raw, text := EntryRaw(entries[i]), entries[i].1;
      if !ValidEntry(ty, entries[i]) {
        return None;
      }
      if text in byLabel {
        RepeatedLabel(ty, entries, i);
        return None;
      }
      ValidExtend(ty, entries, i);
      TablesSnoc(entries, i);
      byLabel, byRaw := byLabel[text := raw], byRaw[raw := text];
    }
    assert entries[..|entries|] == entries;
    r := Some((byRaw, byLabel));
  }

  /** A valid entry with a new label keeps the map acceptable. */
  lemma ValidExtend(ty: SignalType, entries: seq<(string, string)>, i: nat)
    requires i < |entries| && ValidEntries(ty, entries[..i])
    requires ValidEntry(ty, entries[i]) && entries[i].1 !in LabelTable(entries[..i])
    ensures ValidEntries(ty, entries[..i + 1])
  {
    var before, after := entries[..i], entries[..i + 1];
    FreshLabel(before, entries[i].1);
    assert after == before + [entries[i]];
    forall j, k | 0 <= j < k < |after| ensures after[j].1 != after[k].1 {
      assert after[j] == before[j];
    }
  }

  /** A label that occurred before makes the whole map unacceptable. */
  lemma RepeatedLabel(ty: SignalType, entries: seq<(string, string)>, i: nat)
    requires i < |entries| && entries[i].1 in LabelTable(entries[..i])
    ensures !ValidEntries(ty, entries)
  {
    var j := LabelTableOnly(entries[..i], entries[i].1);
    assert entries[j].1 == entries[i].1;
  }

  lemma TablesSnoc(entries: seq<(string, string)>, i: nat)
    requires i < |entries|
    ensures RawTable(entries[..i + 1]) == RawTable(entries[..i])[EntryRaw(entries[i]) := entries[i].1]
    ensures LabelTable(entries[..i + 1]) == LabelTable(entries[..i])[entries[i].1 := EntryRaw(entries[i])]
  {
    assert entries[..i + 1][..i] == entries[..i];
  }

  lemma {:induction false} FreshLabel(entries: seq<(string, string)>, l: string)
    requires l !in LabelTable(entries)
    ensures forall j :: 0 <= j < |entries| ==> entries[j].1 != l
  {
    if entries != [] {
      FreshLabel(entries[..|entries| - 1], l);
    }
  }

  // ---- catalogs ---------------------------------------------------------

  /** The catalog rules over the first `n` signals of the document. */
  predicate ValidPrefix(spec: CatalogSpec, n: nat)
    requires n <= |spec.signals|
  {
    && (forall i :: 0 <= i < n ==> ValidDef(spec.signals[i]))
    && (forall i, j :: 0 <= i < j < n ==>
          spec.signals[i].id != spec.signals[j].id && spec.signals[i].name != spec.signals[j].name)
  }

  predicate ValidSpec(spec: CatalogSpec) {
    !IsBlank(spec.model) && ValidPrefix(spec, |spec.signals|)
  }

  /** A catalog as `NewCatalog` builds it from `spec`. */
  ghost predicate BuiltCatalog(c: SignalCatalog, spec: CatalogSpec) {
    && |c.signals| == |spec.signals|
    && (forall i :: 0 <= i < |c.signals| ==> Built(c.signals[i]) && c.signals[i].def == spec.signals[i])
    && Indexed(c)
  }

  /** Both lookups find exactly the signals of the catalog. */
  ghost predicate Indexed(c: SignalCatalog) {
    && (forall id :: id in c.byId ==> c.byId[id] < |c.signals| && c.signals[c.byId[id]].def.id == id)
    && (forall n :: n in c.byName ==> c.byName[n] < |c.signals| && c.signals[c.byName[n]].def.name == n)
    && (forall i :: 0 <= i < |c.signals| ==> c.signals[i].def.id in c.byId && c.byId[c.signals[i].def.id] == i)
    && (forall i :: 0 <= i < |c.signals| ==> c.signals[i].def.name in c.byName && c.byName[c.signals[i].def.name] == i)
  }

  /** `e` is what signal `i` is refused for: an earlier signal's id, or else its name, or what is wrong in itself. */
  predicate RefusedAt(spec: CatalogSpec, i: nat, e: CatalogError)
    requires i < |spec.signals|
  {
    var def := spec.signals[i];
    if exists k :: 0 <= k < i && spec.signals[k].id == def.id then e == DuplicateId(def.id)
    else if exists k :: 0 <= k < i && spec.signals[k].name == def.name then e == DuplicateName(def.name)
    else e == FirstProblem(def)
  }

  method NewCatalog(spec: CatalogSpec) returns (r: Result<SignalCatalog, CatalogError>)
    ensures r.Ok? <==> ValidSpec(spec)
    ensures r.Err? ==>
              if IsBlank(spec.model) then r.error == EmptyModel
              else exists i: nat :: i < |spec.signals| && ValidPrefix(spec, i) && RefusedAt(spec, i, r.error)
    ensures r.Ok? ==> BuiltCatalog(r.value, spec) && r.value.model == spec.model
  {
    if IsBlank(spec.model) {
      return Err(EmptyModel);
    }
    var signals: seq<Signal> := [];
    var byId: map<u16, nat> := map[];
    var byName: map<string, nat> := map[];
    for i := 0 to |spec.signals|
      invariant |signals| == i
      invariant forall k :: 0 <= k < i ==> Built(signals[k]) && signals[k].def == spec.signals[k]
      invariant Indexed(SignalCatalog(spec.model, spec.version, signals, byId, byName))
      invariant ValidPrefix(spec, i)
    {
      var def := spec.signals[i];
      if def.id in byId {
        assert spec.signals[byId[def.id]].id == def.id;
        assert RefusedAt(spec, i, DuplicateId(def.id));
        return Err(DuplicateId(def.id));
      }
      if def.name in byName {
        assert spec.signals[byName[def.name]].name == def.name;
        assert RefusedAt(spec, i, DuplicateName(def.name));
        return Err(DuplicateName(def.name));
      }
      forall k | 0 <= k < i
        ensures spec.signals[k].id != def.id && spec.signals[k].name != def.name
      {
        assert signals[k].def == spec.signals[k];
      }
      var s := NewSignal(def);
      if s.Err? {
        assert RefusedAt(spec, i, s.error);
        return Err(s.error);
      }
      IndexedExtend(SignalCatalog(spec.model, spec.version, signals, byId, byName), s.value);
      byId, byName, signals := byId[def.id := i], byName[def.name := i], signals + [s.value];
    }
    r := Ok(SignalCatalog(spec.model, spec.version, signals, byId, byName));
  }

  lemma IndexedExtend(c: SignalCatalog, s: Signal)
    requires Indexed(c) && s.def.id !in c.byId && s.def.name !in c.byName
    ensures Indexed(c.(
              signals := c.signals + [s], byId := c.byId[s.def.id := |c.signals|],
              byName := c.byName[s.def.name := |c.signals|]))
  {
  }

  /** Lookup by id finds the one signal carrying that id, and nothing else. */
  lemma ByIdFindsExactly(c: SignalCatalog, spec: CatalogSpec, id: u16, s: Signal)
    requires BuiltCatalog(c, spec)
    ensures c.ById(id) == Some(s) <==> s in c.signals && s.def.id == id
  {
    if s in c.signals && s.def.id == id {
      var i :| 0 <= i < |c.signals| && c.signals[i] == s;
      assert c.byId[c.signals[i].def.id] == i;
    }
  }

  lemma ByNameFindsExactly(c: SignalCatalog, spec: CatalogSpec, name: string, s: Signal)
    requires BuiltCatalog(c, spec)
    ensures c.ByName(name) == Some(s) <==> s in c.signals && s.def.name == name
  {
    if s in c.signals && s.def.name == name {
      var i :| 0 <= i < |c.signals| && c.signals[i] == s;
      assert c.byName[c.signals[i].def.name] == i;
    }
  }
}
