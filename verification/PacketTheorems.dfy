/** What the packet codec promises: a bijection, exact accounting, tolerance of cut and padded datagrams. */
module PacketTheorems {
  import opened Prelude
  import opened Bytes
  import opened Catalog
  import opened Values
  import opened Packet

  // ---- bijection --------------------------------------------------------

  lemma FrameReadsBack(f: RawFrame, rest: seq<byte>)
    requires |f.payload| <= 255
    ensures var b := FrameBytes(f) + rest;
            FrameLen(b) == FRAME_HEADER_LEN + |f.payload| && FrameAt(b) == f && b[FrameLen(b)..] == rest
  {
    PowEight();
    assert Pow256(2) == 0x1_0000;
    BeWriteRead(2, f.signalId);
    BeWriteRead(8, f.timestampUs);
    var b := FrameBytes(f) + rest;
    assert b[..2] == ToBe(2, f.signalId);
    assert b[2..10] == ToBe(8, f.timestampUs);
    assert b[FRAME_HEADER_LEN..FrameLen(b)] == f.payload;
  }

  lemma FrameWritesBack(b: seq<byte>)
    requires |b| >= FRAME_HEADER_LEN && |b| >= FrameLen(b)
    ensures |FrameAt(b).payload| == b[10] && FrameBytes(FrameAt(b)) == b[..FrameLen(b)]
  {
    BeReadWrite(b[..2]);
    BeReadWrite(b[2..10]);
    assert b[..FrameLen(b)] == b[..2] + b[2..10] + [b[10]] + b[FRAME_HEADER_LEN..FrameLen(b)];
  }

  /** The body written front to back. */
  lemma {:induction false} BodyHead(f: RawFrame, fs: seq<RawFrame>)
    requires |f.payload| <= 255 && BodyBytes(fs).Ok?
    ensures BodyBytes([f] + fs) == Ok(FrameBytes(f) + BodyBytes(fs).value)
    decreases |fs|
  {
    var n := |fs|;
    if n == 0 {
      assert ([f] + fs)[..0] == [];
      assert FrameBytes(f) + [] == FrameBytes(f) == [] + FrameBytes(f);
    } else {
      BodyHead(f, fs[..n - 1]);
      assert ([f] + fs)[..n] == [f] + fs[..n - 1];
      assert FrameBytes(f) + BodyBytes(fs[..n - 1]).value + FrameBytes(fs[n - 1])
          == FrameBytes(f) + (BodyBytes(fs[..n - 1]).value + FrameBytes(fs[n - 1]));
    }
  }

  lemma {:induction false} BodyOkIff(frames: seq<RawFrame>)
    ensures BodyBytes(frames).Ok? <==> forall i :: 0 <= i < |frames| ==> |frames[i].payload| <= 255
    ensures BodyBytes(frames).Ok? ==> |BodyBytes(frames).value| == BodyLen(frames)
  {
    if frames != [] {
      var n := |frames| - 1;
      BodyOkIff(frames[..n]);
      assert forall i :: 0 <= i < n ==> frames[..n][i] == frames[i];
    }
  }

  lemma {:induction false} ScanOfBody(frames: seq<RawFrame>)
    requires BodyBytes(frames).Ok?
    ensures ScanFrames(BodyBytes(frames).value, |frames|) == (frames, Done(0))
    decreases |frames|
  {
    if frames != [] {
      var f, fs := frames[0], frames[1..];
      BodyOkIff(frames);
      BodyOkIff(fs);
      assert frames == [f] + fs;
      BodyHead(f, fs);
      FrameReadsBack(f, BodyBytes(fs).value);
      ScanOfBody(fs);
    }
  }

  lemma {:induction false} BodyOfScan(b: seq<byte>, n: nat)
    requires ScanFrames(b, n).1 == Done(0)
    ensures BodyBytes(ScanFrames(b, n).0) == Ok(b)
  {
    if n > 0 {
      var k := n - 1;
      BodyOfScan(b[FrameLen(b)..], k);
      BodyOfFrame(b, ScanFrames(b[FrameLen(b)..], k).0);
    }
  }

  lemma BodyOfFrame(b: seq<byte>, fs: seq<RawFrame>)
    requires |b| >= FRAME_HEADER_LEN && |b| >= FrameLen(b) && BodyBytes(fs) == Ok(b[FrameLen(b)..])
    ensures BodyBytes([FrameAt(b)] + fs) == Ok(b)
  {
    FrameWritesBack(b);
    BodyHead(FrameAt(b), fs);
    assert b == b[..FrameLen(b)] + b[FrameLen(b)..];
  }

  lemma HeaderReadsBack(count: byte, body: seq<byte>)
    ensures var b := HeaderBytes(count) + body;
            |HeaderBytes(count)| == PACKET_HEADER_LEN
            && U16Of(b[..2]) == MAGIC && b[2] == VERSION && b[3] == count && b[PACKET_HEADER_LEN..] == body
  {
    assert Pow256(2) == 0x1_0000;
    BeWriteRead(2, MAGIC);
    assert (HeaderBytes(count) + body)[..2] == ToBe(2, MAGIC);
  }

  /** Encoding succeeds exactly within the wire limits. */
  lemma EncodeSucceedsIff(frames: seq<RawFrame>)
    ensures EncodeSpec(frames).Ok? <==>
              && 1 <= |frames| <= MAX_FRAMES
              && PACKET_HEADER_LEN + BodyLen(frames) <= MAX_DATAGRAM_LEN
              && forall i :: 0 <= i < |frames| ==> |frames[i].payload| <= 255
    ensures EncodeSpec(frames).Ok? ==> |EncodeSpec(frames).value| == PACKET_HEADER_LEN + BodyLen(frames)
  {
    BodyOkIff(frames);
    if |frames| <= MAX_FRAMES && BodyBytes(frames).Ok? {
      HeaderReadsBack(|frames|, BodyBytes(frames).value);
    }
  }

  /** Every packet that encodes parses back to exactly its frames, with nothing cut off and nothing left over. */
  lemma EncodeThenParse(frames: seq<RawFrame>)
    requires EncodeSpec(frames).Ok?
    ensures ParsePacket(EncodeSpec(frames).value) == Ok((frames, Done(0)))
  {
    EncodeSucceedsIff(frames);
    HeaderReadsBack(|frames|, BodyBytes(frames).value);
    ScanOfBody(frames);
  }

  lemma HeaderReadBack(b: seq<byte>)
    requires |b| >= PACKET_HEADER_LEN && U16Of(b[..2]) == MAGIC && b[2] == VERSION
    ensures HeaderBytes(b[3]) == b[..PACKET_HEADER_LEN]
  {
    BeReadWrite(b[..2]);
    assert b[..PACKET_HEADER_LEN] == b[..2] + [b[2], b[3]];
  }

  /** Every datagram that parses with nothing cut off and nothing left over is the encoding of its frames. */
  lemma ParseThenEncode(b: seq<byte>, frames: seq<RawFrame>)
    requires ParsePacket(b) == Ok((frames, Done(0)))
    ensures EncodeSpec(frames) == Ok(b)
  {
    var body := b[PACKET_HEADER_LEN..];
    BodyOfScan(body, b[3]);
    BodyOkIff(frames);
    HeaderReadBack(b);
    assert HeaderBytes(|frames|) + body == b;
  }

  /** Decoding an encoded packet visits exactly the encoded frames and reports no stop error. */
  lemma DecodeOfEncode(fp: Fp, cat: SignalCatalog, frames: seq<RawFrame>)
    requires EncodeSpec(frames).Ok?
    ensures DecodeSpec(fp, cat, EncodeSpec(frames).value) == Ok(Interpret(fp, cat, frames))
  {
    EncodeThenParse(frames);
    var d := Interpret(fp, cat, frames);
    assert d.errors + [] == d.errors;
  }

  // ---- accounting -------------------------------------------------------

  /** Frame errors come in frame order, concern complete frames, and are never stop errors. */
  ghost predicate FrameErrorsOnly(errors: seq<FrameError>, n: nat) {
    && (forall e :: e in errors ==> e.index < n && !e.kind.Truncated? && !e.kind.TrailingBytes?)
    && (forall i, j :: 0 <= i < j < |errors| ==> errors[i].index < errors[j].index)
  }

  ghost predicate HasErrorAt(errors: seq<FrameError>, i: nat) {
    exists e :: e in errors && e.index == i
  }

  /** Every complete frame is exactly one of sample, unknown or error. */
  lemma {:induction false} FramesAccounted(fp: Fp, cat: SignalCatalog, frames: seq<RawFrame>)
    ensures var d := Interpret(fp, cat, frames);
            |d.samples| + |d.errors| + d.unknownSignals == |frames| && FrameErrorsOnly(d.errors, |frames|)
  {
    if frames != [] {
      FramesAccounted(fp, cat, frames[..|frames| - 1]);
    }
  }

  /** Frame `i` has an error report exactly when it decodes to an error. */
  lemma {:induction false} ErrorAtIff(fp: Fp, cat: SignalCatalog, frames: seq<RawFrame>, i: nat)
    requires i < |frames|
    ensures HasErrorAt(Interpret(fp, cat, frames).errors, i) <==> FrameOutcome(fp, cat, frames[i]).Bad?
    decreases |frames|
  {
    var n := |frames| - 1;
    var before, d := Interpret(fp, cat, frames[..n]), Interpret(fp, cat, frames);
    if i < n {
      assert frames[..n][i] == frames[i];
      ErrorAtIff(fp, cat, frames[..n], i);
      assert forall e :: e in before.errors ==> e in d.errors;
    } else {
      FramesAccounted(fp, cat, frames[..n]);
      if FrameOutcome(fp, cat, frames[n]).Bad? {
        assert d.errors[|d.errors| - 1].index == n;
      }
    }
  }

  /** The error list has exactly this error for the frame. */
  ghost predicate ReportsOnly(errors: seq<FrameError>, e: FrameError) {
    e in errors && forall x :: x in errors && x.index == e.index ==> x == e
  }

  /** One more frame leaves what is reported of the earlier ones as it is. */
  lemma EarlierReports(fp: Fp, cat: SignalCatalog, frames: seq<RawFrame>, n: nat, i: nat)
    requires |frames| == n + 1 && i < n
    ensures var a, b := Interpret(fp, cat, frames[..n]).errors, Interpret(fp, cat, frames).errors;
            && (HasErrorAt(b, i) <==> HasErrorAt(a, i))
            && forall e: FrameError :: e.index == i && ReportsOnly(a, e) ==> ReportsOnly(b, e)
  {
    var a, b := Interpret(fp, cat, frames[..n]).errors, Interpret(fp, cat, frames).errors;
    assert forall e :: e in a ==> e in b;
    assert forall e :: e in b && e.index < n ==> e in a;
  }

  /** What the last frame adds. */
  lemma LastReport(fp: Fp, cat: SignalCatalog, frames: seq<RawFrame>, n: nat)
    requires |frames| == n + 1
    ensures var errors, s := Interpret(fp, cat, frames).errors, cat.ById(frames[n].signalId);
            if s.None? then !HasErrorAt(errors, n)
            else
              match DecodeValue(fp, s.value, frames[n].payload)
              case Err(kind) => ReportsOnly(errors, FrameError(n, Some(frames[n].signalId), kind))
              case Ok(_) => !HasErrorAt(errors, n)
  {
    FramesAccounted(fp, cat, frames[..n]);
    var a, b := Interpret(fp, cat, frames[..n]).errors, Interpret(fp, cat, frames).errors;
    assert b == a || b == a + [b[|b| - 1]];
  }

  /**
   * Which complete frames are errors: a frame of an unknown signal never is; a frame of a
   * known one is exactly when its payload does not decode, and then its one report carries
   * the signal's id and the reason.
   */
  lemma {:induction false} FrameReports(fp: Fp, cat: SignalCatalog, frames: seq<RawFrame>, i: nat)
    requires i < |frames|
    ensures var errors, s := Interpret(fp, cat, frames).errors, cat.ById(frames[i].signalId);
            if s.None? then !HasErrorAt(errors, i)
            else
              match DecodeValue(fp, s.value, frames[i].payload)
              case Err(kind) => ReportsOnly(errors, FrameError(i, Some(frames[i].signalId), kind))
              case Ok(_) => !HasErrorAt(errors, i)
    decreases |frames|
  {
    var n := |frames| - 1;
    if i < n {
      FrameReports(fp, cat, frames[..n], i);
      EarlierReports(fp, cat, frames, n, i);
      assert frames[..n][i] == frames[i];
    } else {
      LastReport(fp, cat, frames, n);
    }
  }

  /** How many frames are of signals the catalog does not have. */
  function UnknownFrames(cat: SignalCatalog, frames: seq<RawFrame>): nat {
    if frames == [] then 0
    else UnknownFrames(cat, frames[..|frames| - 1]) + if cat.ById(frames[|frames| - 1].signalId).None? then 1 else 0
  }

  lemma {:induction false} UnknownCounted(fp: Fp, cat: SignalCatalog, frames: seq<RawFrame>)
    ensures Interpret(fp, cat, frames).unknownSignals == UnknownFrames(cat, frames)
  {
    if frames != [] {
      UnknownCounted(fp, cat, frames[..|frames| - 1]);
    }
  }

  /** The samples of the frames that are known and decode, in order, whatever the other frames are. */
  function DecodableSamples(fp: Fp, cat: SignalCatalog, frames: seq<RawFrame>): seq<Sample> {
    if frames == [] then []
    else
      var f := frames[|frames| - 1];
      DecodableSamples(fp, cat, frames[..|frames| - 1])
      + match cat.ById(f.signalId)
        case None => []
        case Some(s) =>
          match DecodeValue(fp, s, f.payload)
          case Ok(v) => [Sample(f.signalId, s.def.name, f.timestampUs, v)]
          case Err(_) => []
  }

  lemma {:induction false} SamplesDecoded(fp: Fp, cat: SignalCatalog, frames: seq<RawFrame>)
    ensures Interpret(fp, cat, frames).samples == DecodableSamples(fp, cat, frames)
  {
    if frames != [] {
      SamplesDecoded(fp, cat, frames[..|frames| - 1]);
    }
  }

  /** A whole datagram: the samples of its decodable frames, and a count of its frames of unknown signals. */
  lemma DatagramTotals(fp: Fp, cat: SignalCatalog, b: seq<byte>)
    requires ParsePacket(b).Ok?
    ensures var frames, d := ParsePacket(b).value.0, DecodeSpec(fp, cat, b).value;
            d.samples == DecodableSamples(fp, cat, frames) && d.unknownSignals == UnknownFrames(cat, frames)
  {
    SamplesDecoded(fp, cat, ParsePacket(b).value.0);
    UnknownCounted(fp, cat, ParsePacket(b).value.0);
  }

  /** Each complete frame of a datagram is reported as `FrameReports` has it, next to the report on the stop. */
  lemma DatagramReports(fp: Fp, cat: SignalCatalog, b: seq<byte>, i: nat)
    requires ParsePacket(b).Ok? && i < |ParsePacket(b).value.0|
    ensures var frames, errors := ParsePacket(b).value.0, DecodeSpec(fp, cat, b).value.errors;
            var s := cat.ById(frames[i].signalId);
            if s.None? then !HasErrorAt(errors, i)
            else
              match DecodeValue(fp, s.value, frames[i].payload)
              case Err(kind) => ReportsOnly(errors, FrameError(i, Some(frames[i].signalId), kind))
              case Ok(_) => !HasErrorAt(errors, i)
  {
    var (frames, stop) := ParsePacket(b).value;
    FrameReports(fp, cat, frames, i);
    StopReportsBehind(Interpret(fp, cat, frames).errors, |frames|, stop, i);
  }

  lemma StopReportsBehind(errors: seq<FrameError>, n: nat, stop: Stop, i: nat)
    requires i < n
    ensures var all := errors + StopErrors(n, stop);
            && (HasErrorAt(all, i) <==> HasErrorAt(errors, i))
            && forall e: FrameError :: e.index == i && ReportsOnly(errors, e) ==> ReportsOnly(all, e)
  {
    var all := errors + StopErrors(n, stop);
    assert forall e :: e in all <==> e in errors || e in StopErrors(n, stop);
  }

  /** Interpreting more frames only extends what is reported for the first ones. */
  lemma {:induction false} InterpretPrefix(fp: Fp, cat: SignalCatalog, frames: seq<RawFrame>, k: nat)
    requires k <= |frames|
    ensures var a, b := Interpret(fp, cat, frames[..k]), Interpret(fp, cat, frames);
            a.samples <= b.samples && a.errors <= b.errors && a.unknownSignals <= b.unknownSignals
    decreases |frames|
  {
    if k < |frames| {
      assert frames[..|frames| - 1][..k] == frames[..k];
      InterpretPrefix(fp, cat, frames[..|frames| - 1], k);
    } else {
      assert frames[..k] == frames;
    }
  }

  /** The sample of frame `i` sits behind exactly the samples of the earlier frames. */
  lemma SampleInOrder(fp: Fp, cat: SignalCatalog, frames: seq<RawFrame>, i: nat)
    requires i < |frames| && FrameOutcome(fp, cat, frames[i]).Sampled?
    ensures var k := |Interpret(fp, cat, frames[..i]).samples|;
            var all := Interpret(fp, cat, frames).samples;
            k < |all| && all[k] == FrameOutcome(fp, cat, frames[i]).sample
  {
    InterpretPrefix(fp, cat, frames, i + 1);
    SampleLast(fp, cat, frames[..i + 1]);
    assert frames[..i + 1][..i] == frames[..i];
  }

  /** The sample of the last frame is the last sample. */
  lemma SampleLast(fp: Fp, cat: SignalCatalog, frames: seq<RawFrame>)
    requires frames != [] && FrameOutcome(fp, cat, frames[|frames| - 1]).Sampled?
    ensures Interpret(fp, cat, frames).samples ==
            Interpret(fp, cat, frames[..|frames| - 1]).samples + [FrameOutcome(fp, cat, frames[|frames| - 1]).sample]
  {
  }

  /**
   * The whole packet: error indices strictly increase, at most one stop error is reported
   * and it is the last, and samples, errors and unknown signals add up to the frame count,
   * one more with trailing bytes, or one more than the complete frames when one is cut off.
   */
  lemma PacketAccounted(fp: Fp, cat: SignalCatalog, b: seq<byte>)
    requires ParsePacket(b).Ok?
    ensures var (frames, stop) := ParsePacket(b).value;
            var d := DecodeSpec(fp, cat, b).value;
            && 1 <= b[3] <= MAX_FRAMES && |frames| <= b[3]
            && (stop.Done? <==> |frames| == b[3])
            && |d.samples| + |d.errors| + d.unknownSignals == |frames| + (if stop == Done(0) then 0 else 1)
            && (forall i, j :: 0 <= i < j < |d.errors| ==> d.errors[i].index < d.errors[j].index)
            && (forall i :: 0 <= i < |d.errors| ==>
                  (d.errors[i].kind.Truncated? || d.errors[i].kind.TrailingBytes? <==> d.errors[i].index == |frames|))
            && ((exists e :: e in d.errors && e.kind.Truncated?) <==> stop.Cut?)
            && ((exists e :: e in d.errors && e.kind.TrailingBytes?) <==> stop.Done? && stop.rest > 0)
  {
    var (frames, stop) := ParsePacket(b).value;
    FramesAccounted(fp, cat, frames);
    var d, d0 := DecodeSpec(fp, cat, b).value, Interpret(fp, cat, frames);
    assert d.errors == d0.errors + StopErrors(|frames|, stop);
    if stop != Done(0) {
      assert d.errors[|d.errors| - 1] == StopErrors(|frames|, stop)[0];
      assert d.errors[|d.errors| - 1] in d.errors;
    }
    forall e | e in d.errors
      ensures e in d0.errors || (stop != Done(0) && e == StopErrors(|frames|, stop)[0])
    {
    }
  }

  // ---- cut and padded datagrams -----------------------------------------

  lemma SameFrame(b: seq<byte>, k: nat)
    requires FRAME_HEADER_LEN <= k <= |b| && k >= FrameLen(b)
    ensures FrameLen(b[..k]) == FrameLen(b) && FrameAt(b[..k]) == FrameAt(b)
  {
    var c := b[..k];
    assert c[..2] == b[..2] && c[2..10] == b[2..10];
    assert c[FRAME_HEADER_LEN..FrameLen(c)] == b[FRAME_HEADER_LEN..FrameLen(b)];
  }

  lemma {:induction false} ScanOfCut(b: seq<byte>, n: nat, k: nat)
    requires k <= |b|
    ensures ScanFrames(b[..k], n).0 <= ScanFrames(b, n).0
    decreases n
  {
    var c := b[..k];
    if n > 0 && |c| >= FRAME_HEADER_LEN && |c| >= FrameLen(c) {
      SameFrame(b, k);
      var len := FrameLen(b);
      assert b[len..][..k - len] == c[len..];
      ScanOfCut(b[len..], n - 1, k - len);
    }
  }

  lemma {:induction false} ScanOfPadded(b: seq<byte>, n: nat, x: seq<byte>)
    requires ScanFrames(b, n).1.Done?
    ensures ScanFrames(b + x, n) == (ScanFrames(b, n).0, Done(ScanFrames(b, n).1.rest + |x|))
    decreases n
  {
    if n > 0 {
      var c := b + x;
      ScanOfPadded(b[FrameLen(b)..], n - 1, x);
      assert b[FrameLen(b)..] + x == c[FrameLen(c)..];
      SameFrame(c, |b|);
      assert c[..|b|] == b;
    }
  }

  /** Cutting an accepted datagram anywhere behind its header keeps a prefix of what it reports. */
  lemma CutKeepsPrefix(fp: Fp, cat: SignalCatalog, b: seq<byte>, k: nat)
    requires ParsePacket(b).Ok? && PACKET_HEADER_LEN <= k <= |b|
    ensures DecodeSpec(fp, cat, b[..k]).Ok?
    ensures var whole, cut := DecodeSpec(fp, cat, b).value, DecodeSpec(fp, cat, b[..k]).value;
            cut.samples <= whole.samples && cut.unknownSignals <= whole.unknownSignals
    ensures var (frames, stop) := ParsePacket(b[..k]).value;
            Interpret(fp, cat, frames).errors <= DecodeSpec(fp, cat, b).value.errors
            && DecodeSpec(fp, cat, b[..k]).value.errors
               == Interpret(fp, cat, frames).errors + StopErrors(|frames|, stop)
  {
    var c := b[..k];
    assert c[..2] == b[..2];
    assert c[PACKET_HEADER_LEN..] == b[PACKET_HEADER_LEN..][..k - PACKET_HEADER_LEN];
    ScanOfCut(b[PACKET_HEADER_LEN..], b[3], k - PACKET_HEADER_LEN);
    var some, all := ParsePacket(c).value.0, ParsePacket(b).value.0;
    assert all[..|some|] == some;
    InterpretPrefix(fp, cat, all, |some|);
  }

  /** Appending bytes to a datagram whose frames are all complete changes only the trailing-bytes report. */
  lemma PaddingOnlyTrails(fp: Fp, cat: SignalCatalog, b: seq<byte>, x: seq<byte>)
    requires ParsePacket(b).Ok? && ParsePacket(b).value.1.Done? && |b + x| <= MAX_DATAGRAM_LEN
    ensures var (frames, stop) := ParsePacket(b).value;
            var d := Interpret(fp, cat, frames);
            DecodeSpec(fp, cat, b) == Ok(d.(errors := d.errors + StopErrors(|frames|, stop)))
            && DecodeSpec(fp, cat, b + x) == Ok(d.(errors := d.errors + StopErrors(|frames|, Done(stop.rest + |x|))))
  {
    var c := b + x;
    assert c[..2] == b[..2] && c[PACKET_HEADER_LEN..] == b[PACKET_HEADER_LEN..] + x;
    ScanOfPadded(b[PACKET_HEADER_LEN..], b[3], x);
  }

  // ---- values, end to end -----------------------------------------------

  /** The frames of a list of readings; defined where each of them encodes. */
  function FramesOf(fp: Fp, rs: seq<Reading>): (frames: seq<RawFrame>)
    requires forall i :: 0 <= i < |rs| ==> EncodeFrame(fp, rs[i]).Ok?
    ensures |frames| == |rs|
  {
    seq(|rs|, i requires 0 <= i < |rs| => EncodeFrame(fp, rs[i]).value)
  }

  function ReadingSamples(rs: seq<Reading>): seq<Sample> {
    seq(|rs|, i requires 0 <= i < |rs| =>
      Sample(rs[i].signal.def.id, rs[i].signal.def.name, rs[i].timestampUs, rs[i].value))
  }

  /** The value's payload decodes to the value. */
  predicate Survives(fp: Fp, r: Reading) {
    match EncodeValue(fp, r.signal, r.value)
    case Ok(p) => DecodeValue(fp, r.signal, p) == Ok(r.value)
    case Err(_) => false
  }

  /** All readings are of signals the receiving catalog has under the same id. */
  predicate Known(cat: SignalCatalog, rs: seq<Reading>) {
    forall i :: 0 <= i < |rs| ==> cat.ById(rs[i].signal.def.id) == Some(rs[i].signal)
  }

  lemma ReadingOutcome(fp: Fp, cat: SignalCatalog, r: Reading)
    requires cat.ById(r.signal.def.id) == Some(r.signal) && EncodeFrame(fp, r).Ok?
    ensures FrameOutcome(fp, cat, EncodeFrame(fp, r).value) ==
              Sampled(Sample(r.signal.def.id, r.signal.def.name, r.timestampUs, r.value))
            <==> Survives(fp, r)
  {
  }

  /** A frame completes a clean list of samples exactly when the list was clean and the frame gives its last one. */
  lemma AddsExactlyIff(fp: Fp, cat: SignalCatalog, d: DecodedPacket, n: nat, f: RawFrame, all: seq<Sample>)
    requires |all| == n + 1 && |d.samples| + |d.errors| + d.unknownSignals == n
    ensures AddFrame(fp, cat, d, n, f) == DecodedPacket(all, [], 0)
            <==> d == DecodedPacket(all[..n], [], 0) && FrameOutcome(fp, cat, f) == Sampled(all[n])
  {
    if d == DecodedPacket(all[..n], [], 0) {
      assert all == all[..n] + [all[n]];
    }
  }

  lemma InterpretsExactlyIff(fp: Fp, cat: SignalCatalog, frames: seq<RawFrame>, all: seq<Sample>, n: nat)
    requires |frames| == |all| == n + 1
    ensures Interpret(fp, cat, frames) == DecodedPacket(all, [], 0)
            <==> Interpret(fp, cat, frames[..n]) == DecodedPacket(all[..n], [], 0)
                 && FrameOutcome(fp, cat, frames[n]) == Sampled(all[n])
  {
    FramesAccounted(fp, cat, frames[..n]);
    AddsExactlyIff(fp, cat, Interpret(fp, cat, frames[..n]), n, frames[n], all);
  }

  /** The first `n` frames decode to the first `n` samples, and to nothing else. */
  predicate Clean(fp: Fp, cat: SignalCatalog, frames: seq<RawFrame>, all: seq<Sample>, n: nat)
    requires n <= |frames| == |all|
  {
    Interpret(fp, cat, frames[..n]) == DecodedPacket(all[..n], [], 0)
  }

  lemma CleanStep(fp: Fp, cat: SignalCatalog, frames: seq<RawFrame>, all: seq<Sample>, k: nat)
    requires k < |frames| == |all|
    ensures Clean(fp, cat, frames, all, k + 1)
            <==> Clean(fp, cat, frames, all, k) && FrameOutcome(fp, cat, frames[k]) == Sampled(all[k])
  {
    assert frames[..k + 1][..k] == frames[..k] && all[..k + 1][..k] == all[..k];
    InterpretsExactlyIff(fp, cat, frames[..k + 1], all[..k + 1], k);
  }

  /** Frames decode to the given samples and nothing else exactly when each of them does, which `p` says. */
  lemma {:induction false} InterpretsAllIff(
      fp: Fp, cat: SignalCatalog, frames: seq<RawFrame>, all: seq<Sample>, n: nat, p: nat -> bool)
    requires n <= |frames| == |all|
    requires forall i: nat :: i < |frames| ==> (p(i) <==> FrameOutcome(fp, cat, frames[i]) == Sampled(all[i]))
    ensures Clean(fp, cat, frames, all, n) <==> forall i: nat :: i < n ==> p(i)
  {
    if n > 0 {
      var k := n - 1;
      InterpretsAllIff(fp, cat, frames, all, k, p);
      CleanStep(fp, cat, frames, all, k);
      assert k + 1 == n;
    }
  }

  function Survivors(fp: Fp, rs: seq<Reading>): nat -> bool {
    (i: nat) => i < |rs| && Survives(fp, rs[i])
  }

  lemma ReadingOutcomes(fp: Fp, cat: SignalCatalog, rs: seq<Reading>, i: nat)
    requires Known(cat, rs) && i < |rs| && forall i :: 0 <= i < |rs| ==> EncodeFrame(fp, rs[i]).Ok?
    ensures Survivors(fp, rs)(i) <==> FrameOutcome(fp, cat, FramesOf(fp, rs)[i]) == Sampled(ReadingSamples(rs)[i])
  {
    ReadingOutcome(fp, cat, rs[i]);
  }

  lemma ReadingsInterpretIff(fp: Fp, cat: SignalCatalog, rs: seq<Reading>, p: nat -> bool)
    requires Known(cat, rs) && p == Survivors(fp, rs) && forall i :: 0 <= i < |rs| ==> EncodeFrame(fp, rs[i]).Ok?
    ensures Interpret(fp, cat, FramesOf(fp, rs)) == DecodedPacket(ReadingSamples(rs), [], 0)
            <==> forall i: nat :: i < |rs| ==> p(i)
  {
    var frames, all := FramesOf(fp, rs), ReadingSamples(rs);
    forall i: nat | i < |rs|
      ensures p(i) <==> FrameOutcome(fp, cat, frames[i]) == Sampled(all[i])
    {
      ReadingOutcomes(fp, cat, rs, i);
    }
    InterpretsAllIff(fp, cat, frames, all, |rs|, p);
    assert frames[..|rs|] == frames && all[..|rs|] == all;
  }

  lemma SurvivorsExact(fp: Fp, rs: seq<Reading>, p: nat -> bool)
    requires p == Survivors(fp, rs)
    ensures (forall i: nat :: i < |rs| ==> p(i)) <==> forall i :: 0 <= i < |rs| ==> Survives(fp, rs[i])
  {
    forall i: nat | i < |rs| ensures p(i) <==> Survives(fp, rs[i]) {
    }
  }

  /**
   * From values to values: a packet of encoded readings decodes to exactly those readings, in
   * order and with nothing else reported, if and only if each value survives its own encoding.
   */
  lemma ReadingsRoundTripIff(fp: Fp, cat: SignalCatalog, rs: seq<Reading>)
    requires Known(cat, rs) && forall i :: 0 <= i < |rs| ==> EncodeFrame(fp, rs[i]).Ok?
    requires EncodeSpec(FramesOf(fp, rs)).Ok?
    ensures DecodeSpec(fp, cat, EncodeSpec(FramesOf(fp, rs)).value) == Ok(DecodedPacket(ReadingSamples(rs), [], 0))
            <==> forall i :: 0 <= i < |rs| ==> Survives(fp, rs[i])
  {
    var p := Survivors(fp, rs);
    DecodeOfEncode(fp, cat, FramesOf(fp, rs));
    ReadingsInterpretIff(fp, cat, rs, p);
    SurvivorsExact(fp, rs, p);
  }

  /** Booleans always survive; labels do exactly when no later catalog key names the same raw value. */
  lemma BoolsAndLabelsSurvive(fp: Fp, r: Reading)
    requires Built(r.signal) && EncodeFrame(fp, r).Ok?
    ensures r.value.Bool? ==> Survives(fp, r)
    ensures r.value.Enum? ==> (Survives(fp, r) <==> LabelSurvives(fp, r.signal, r.value.text))
  {
    if r.value.Bool? {
      RawWriteRead(fp, r.signal.def.ty, r.signal.Endianness(), if r.value.b then 1 else 0);
    }
  }
}
