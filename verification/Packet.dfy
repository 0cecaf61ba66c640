/** UDP packets: header plus self-delimiting frames, read with a bounds-checked cursor. */
module Packet {
  import opened Prelude
  import opened Bytes
  import opened Catalog
  import opened Values

  const MAGIC: u16 := 0x5445
  const VERSION: byte := 1
  const PACKET_HEADER_LEN := 4
  const FRAME_HEADER_LEN := 11
  const MAX_FRAMES := 64
  const MAX_DATAGRAM_LEN := 1500

  /** A frame with its payload still encoded. */
  datatype RawFrame = RawFrame(signalId: u16, timestampUs: u64, payload: seq<byte>)

  /** Why a datagram is refused before any of its frames is looked at. */
  datatype PacketError =
    | PacketOversize(len: nat)
    | HeaderTruncated(len: nat)
    | BadMagic(magic: u16)
    | BadVersion(version: byte)
    | ZeroFrames
    | FrameCountTooLarge(count: byte)

  datatype FrameError = FrameError(index: nat, signalId: Option<u16>, kind: FrameErrorKind)

  datatype DecodedPacket = DecodedPacket(samples: seq<Sample>, errors: seq<FrameError>, unknownSignals: nat)

  function U16Of(b: seq<byte>): u16
    requires |b| == 2
  {
    assert Pow256(2) == 0x1_0000;
    FromBe(b)
  }

  function U64Of(b: seq<byte>): u64
    requires |b| == 8
  {
    PowEight();
    FromBe(b)
  }

  lemma PowEight()
    ensures Pow256(8) == 0x1_0000_0000_0000_0000
  {
    assert Pow256(4) == 0x1_0000_0000;
    assert Pow256(6) == 0x1_0000_0000_0000;
  }

  // ---- reading frames ---------------------------------------------------

  /** Why scanning stopped: a frame ran past the end, or all frames were read with `rest` bytes left. */
  datatype Stop = Cut(signalId: Option<u16>) | Done(rest: nat)

  /** Bytes the frame at the head of `b` needs, once its header is readable. */
  function FrameLen(b: seq<byte>): nat
    requires |b| >= FRAME_HEADER_LEN
  {
    FRAME_HEADER_LEN + b[10]
  }

  function FrameAt(b: seq<byte>): RawFrame
    requires |b| >= FRAME_HEADER_LEN && |b| >= FrameLen(b)
  {
    RawFrame(U16Of(b[..2]), U64Of(b[2..10]), b[FRAME_HEADER_LEN..FrameLen(b)])
  }

  /** Splits up to `n` frames off the front of `b`. */
  function ScanFrames(b: seq<byte>, n: nat): (r: (seq<RawFrame>, Stop))
    ensures |r.0| <= n && (r.1.Done? <==> |r.0| == n)
  {
    if n == 0 then ([], Done(|b|))
    else if |b| < FRAME_HEADER_LEN then ([], Cut(if |b| < 2 then None else Some(U16Of(b[..2]))))
    else if |b| < FrameLen(b) then ([], Cut(Some(U16Of(b[..2]))))
    else
      var (fs, stop) := ScanFrames(b[FrameLen(b)..], n - 1);
      ([FrameAt(b)] + fs, stop)
  }

  /** `frames` have been split off `all`, leaving `b` with `n` frames to go. */
  predicate Scanned(all: seq<byte>, count: nat, frames: seq<RawFrame>, b: seq<byte>, n: nat) {
    ScanFrames(all, count) == (frames + ScanFrames(b, n).0, ScanFrames(b, n).1)
  }

  lemma ScannedAdvance(all: seq<byte>, count: nat, frames: seq<RawFrame>, b: seq<byte>, n: nat)
    requires Scanned(all, count, frames, b, n) && n > 0
    requires |b| >= FRAME_HEADER_LEN && |b| >= FrameLen(b)
    ensures Scanned(all, count, frames + [FrameAt(b)], b[FrameLen(b)..], n - 1)
  {
    var rest := ScanFrames(b[FrameLen(b)..], n - 1).0;
    assert frames + ([FrameAt(b)] + rest) == frames + [FrameAt(b)] + rest;
  }

  lemma ScannedStart(all: seq<byte>, count: nat)
    ensures Scanned(all, count, [], all, count)
  {
    assert [] + ScanFrames(all, count).0 == ScanFrames(all, count).0;
  }

  lemma ScannedStop(all: seq<byte>, count: nat, frames: seq<RawFrame>, b: seq<byte>, n: nat)
    requires Scanned(all, count, frames, b, n)
    requires n == 0 || |b| < FRAME_HEADER_LEN || |b| < FrameLen(b)
    ensures ScanFrames(all, count).0 == frames
    ensures ScanFrames(all, count).1 ==
            if n == 0 then Done(|b|) else Cut(if |b| < 2 then None else Some(U16Of(b[..2])))
  {
    assert frames + [] == frames;
  }

  /** Header checks, then the frames: the catalog plays no part. */
  function ParsePacket(b: seq<byte>): Result<(seq<RawFrame>, Stop), PacketError> {
    if |b| > MAX_DATAGRAM_LEN then Err(PacketOversize(|b|))
    else if |b| < PACKET_HEADER_LEN then Err(HeaderTruncated(|b|))
    else if U16Of(b[..2]) != MAGIC then Err(BadMagic(U16Of(b[..2])))
    else if b[2] != VERSION then Err(BadVersion(b[2]))
    else if b[3] == 0 then Err(ZeroFrames)
    else if b[3] > MAX_FRAMES then Err(FrameCountTooLarge(b[3]))
    else Ok(ScanFrames(b[PACKET_HEADER_LEN..], b[3]))
  }

  // ---- interpreting frames ----------------------------------------------

  datatype Outcome = Sampled(sample: Sample) | Unknown | Bad(kind: FrameErrorKind)

  /** What one complete frame amounts to under a catalog. */
  function FrameOutcome(fp: Fp, cat: SignalCatalog, f: RawFrame): Outcome {
    var s := cat.ById(f.signalId);
    if s.None? then Unknown
    else
      var v := DecodeValue(fp, s.value, f.payload);
      if v.Ok? then Sampled(Sample(f.signalId, s.value.def.name, f.timestampUs, v.value)) else Bad(v.error)
  }

  function AddFrame(fp: Fp, cat: SignalCatalog, d: DecodedPacket, index: nat, f: RawFrame): DecodedPacket {
    match FrameOutcome(fp, cat, f)
    case Sampled(s) => d.(samples := d.samples + [s])
    case Unknown => d.(unknownSignals := d.unknownSignals + 1)
    case Bad(kind) => d.(errors := d.errors + [FrameError(index, Some(f.signalId), kind)])
  }

  function Interpret(fp: Fp, cat: SignalCatalog, frames: seq<RawFrame>): DecodedPacket {
    if frames == [] then DecodedPacket([], [], 0)
    else AddFrame(fp, cat, Interpret(fp, cat, frames[..|frames| - 1]), |frames| - 1, frames[|frames| - 1])
  }

  /** The error reported after the last complete frame, if any; its index is the number of complete frames. */
  function StopErrors(count: nat, stop: Stop): seq<FrameError> {
    match stop
    case Cut(id) => [FrameError(count, id, Truncated)]
    case Done(rest) => if rest == 0 then [] else [FrameError(count, None, TrailingBytes(rest))]
  }

  function WithStop(d: DecodedPacket, count: nat, stop: Stop): DecodedPacket {
    d.(errors := d.errors + StopErrors(count, stop))
  }

  function DecodeSpec(fp: Fp, cat: SignalCatalog, b: seq<byte>): Result<DecodedPacket, PacketError> {
    match ParsePacket(b)
    case Err(e) => Err(e)
    case Ok((frames, stop)) => Ok(WithStop(Interpret(fp, cat, frames), |frames|, stop))
  }

  /** A position in a datagram that never passes its end. */
  class Reader {
    const buf: seq<byte>
    var pos: nat

    constructor (buf: seq<byte>)
      ensures this.buf == buf && pos == 0
    {
      this.buf, pos := buf, 0;
    }

    predicate Valid()
      reads this
    {
      pos <= |buf|
    }

    /** The bytes not consumed yet. */
    function Rest(): seq<byte>
      requires Valid()
      reads this
    {
      buf[pos..]
    }

    /** Takes `n` bytes, or fails and leaves the cursor where it was. */
    method Take(n: nat) returns (r: Option<seq<byte>>)
      requires Valid()
      modifies this
      ensures Valid()
      ensures n <= |old(Rest())| ==> r == Some(old(Rest())[..n]) && Rest() == old(Rest())[n..] && pos == old(pos) + n
      ensures n > |old(Rest())| ==> r == None && pos == old(pos)
    {
      if pos + n <= |buf| {
        assert buf[pos..][..n] == buf[pos..pos + n] && buf[pos..][n..] == buf[pos + n..];
        r := Some(buf[pos..pos + n]);
        pos := pos + n;
      } else {
        r := None;
      }
    }

    method U8() returns (r: Option<byte>)
      requires Valid()
      modifies this
      ensures Valid()
      ensures |old(Rest())| >= 1 ==> r == Some(old(Rest())[0]) && Rest() == old(Rest())[1..] && pos == old(pos) + 1
      ensures |old(Rest())| < 1 ==> r == None && pos == old(pos)
    {
      var b := Take(1);
      r := if b.None? then None else Some(b.value[0]);
    }

    method U16Be() returns (r: Option<u16>)
      requires Valid()
      modifies this
      ensures Valid()
      ensures |old(Rest())| >= 2 ==>
                r == Some(U16Of(old(Rest())[..2])) && Rest() == old(Rest())[2..] && pos == old(pos) + 2
      ensures |old(Rest())| < 2 ==> r == None && pos == old(pos)
    {
      var b := Take(2);
      r := if b.None? then None else Some(U16Of(b.value));
    }

    method U64Be() returns (r: Option<u64>)
      requires Valid()
      modifies this
      ensures Valid()
      ensures |old(Rest())| >= 8 ==>
                r == Some(U64Of(old(Rest())[..8])) && Rest() == old(Rest())[8..] && pos == old(pos) + 8
      ensures |old(Rest())| < 8 ==> r == None && pos == old(pos)
    {
      var b := Take(8);
      r := if b.None? then None else Some(U64Of(b.value));
    }

    /**
     * Reads one frame. The three header fields are read eagerly, so a later field may be
     * read after an earlier one failed; the frame still counts as readable exactly when
     * enough bytes remain.
     */
    method NextFrame() returns (frame: Option<RawFrame>, signalId: Option<u16>)
      requires Valid()
      modifies this
      ensures Valid()
      ensures frame.Some? <==> |old(Rest())| >= FRAME_HEADER_LEN && |old(Rest())| >= FrameLen(old(Rest()))
      ensures frame.Some? ==> frame.value == FrameAt(old(Rest())) && Rest() == old(Rest())[FrameLen(old(Rest()))..]
      ensures signalId == if |old(Rest())| < 2 then None else Some(U16Of(old(Rest())[..2]))
    {
      ghost var b := Rest();
      signalId := U16Be();
      var timestampUs := U64Be();
      var len := U8();
      if signalId.None? || timestampUs.None? || len.None? {
        return None, signalId;
      }
      assert Rest() == b[FRAME_HEADER_LEN..];
      assert b[2..][..8] == b[2..10] && b[2..][8..][0] == b[10];
      var payload := Take(len.value);
      if payload.None? {
        return None, signalId;
      }
      assert payload.value == b[FRAME_HEADER_LEN..FrameLen(b)];
      frame := Some(RawFrame(signalId.value, timestampUs.value, payload.value));
    }
  }

  /** The whole decoder: size, header, frames, and what is left behind them. */
  method DecodePacket(fp: Fp, cat: SignalCatalog, buf: seq<byte>) returns (r: Result<DecodedPacket, PacketError>)
    ensures r == DecodeSpec(fp, cat, buf)
  {
    if |buf| > MAX_DATAGRAM_LEN {
      return Err(PacketOversize(|buf|));
    }
    var rd := new Reader(buf);
    assert rd.Rest() == buf;
    var magic := rd.U16Be();
    var version := rd.U8();
    var count := rd.U8();
    if magic.None? || version.None? || count.None? {
      return Err(HeaderTruncated(|buf|));
    }
    if magic.value != MAGIC {
      return Err(BadMagic(magic.value));
    }
    if version.value != VERSION {
      return Err(BadVersion(version.value));
    }
    if count.value == 0 {
      return Err(ZeroFrames);
    }
    if count.value > MAX_FRAMES {
      return Err(FrameCountTooLarge(count.value));
    }
    assert rd.Rest() == buf[PACKET_HEADER_LEN..];
    var out := DecodeFrames(fp, cat, rd, count.value);
    r := Ok(out);
  }

  /** Scanning has to stop before `b`: no frame is complete. */
  predicate NoFrame(b: seq<byte>) {
    |b| < FRAME_HEADER_LEN || |b| < FrameLen(b)
  }

  /** Why scanning stops before `b` with `n` frames to go. */
  function StopAt(b: seq<byte>, n: nat): Stop {
    if n == 0 then Done(|b|) else Cut(if |b| < 2 then None else Some(U16Of(b[..2])))
  }

  /** One round of the frame loop: interprets the next frame, or says that it runs past the end. */
  method DecodeFrame(
      fp: Fp, cat: SignalCatalog, rd: Reader, out: DecodedPacket, ghost all: seq<byte>, ghost count: nat,
      ghost frames: seq<RawFrame>, index: nat)
    returns (out': DecodedPacket, cut: bool, signalId: Option<u16>)
    requires rd.Valid() && index < count && Decoding(fp, cat, all, count, frames, rd.Rest(), count - index, out)
    requires |frames| == index
    modifies rd
    ensures rd.Valid()
    ensures var b := old(rd.Rest());
            if NoFrame(b) then cut && out' == out && Cut(signalId) == StopAt(b, 1)
            else !cut && rd.Rest() == b[FrameLen(b)..]
                 && Decoding(fp, cat, all, count, frames + [FrameAt(b)], rd.Rest(), count - (index + 1), out')
  {
    ghost var b := rd.Rest();
    var frame;
    frame, signalId := rd.NextFrame();
    cut := frame.None?;
    out' := out;
    if !cut {
      out' := InterpretFrame(fp, cat, out, index, frame.value);
      LoopStep(fp, cat, all, count, frames, b, count - index, out, out');
    }
  }

  /** The frame loop: goes on to the first frame that runs past the end, and tells why it stopped there. */
  method DecodeComplete(fp: Fp, cat: SignalCatalog, rd: Reader, count: nat)
    returns (decoded: DecodedPacket, index: nat, stop: Stop, ghost frames: seq<RawFrame>, ghost b: seq<byte>)
    requires rd.Valid()
    modifies rd
    ensures |frames| == index <= count && (index == count || NoFrame(b)) && stop == StopAt(b, count - index)
    ensures Decoding(fp, cat, old(rd.Rest()), count, frames, b, count - index, decoded)
  {
    ghost var all := rd.Rest();
    decoded, index, frames, b := DecodedPacket([], [], 0), 0, [], all;
    ScannedStart(all, count);
    while index < count
      invariant rd.Valid() && b == rd.Rest() && |frames| == index <= count
      invariant Decoding(fp, cat, all, count, frames, b, count - index, decoded)
    {
      var cut, signalId;
      decoded, cut, signalId := DecodeFrame(fp, cat, rd, decoded, all, count, frames, index);
      if cut {
        stop := Cut(signalId);
        return;
      }
      frames, b, index := frames + [FrameAt(b)], rd.Rest(), index + 1;
    }
    stop := Done(|rd.buf| - rd.pos);
  }

  /** All frames of a packet: those that are complete, then the report on what stopped the loop. */
  method DecodeFrames(fp: Fp, cat: SignalCatalog, rd: Reader, count: byte) returns (out: DecodedPacket)
    requires rd.Valid()
    modifies rd
    ensures var (frames, stop) := ScanFrames(old(rd.Rest()), count);
            out == WithStop(Interpret(fp, cat, frames), |frames|, stop)
  {
    ghost var all := rd.Rest();
    var decoded, index, stop;
    ghost var frames, b;
    decoded, index, stop, frames, b := DecodeComplete(fp, cat, rd, count);
    out := ReportStop(decoded, index, stop);
    DecodedToStop(fp, cat, all, count, frames, b, count - index, decoded, out);
  }

  /** The report after the last complete frame, if any. */
  method ReportStop(decoded: DecodedPacket, count: nat, stop: Stop) returns (out: DecodedPacket)
    ensures out == WithStop(decoded, count, stop)
  {
    out := decoded;
    match stop
    case Cut(signalId) => out := out.(errors := out.errors + [FrameError(count, signalId, Truncated)]);
    case Done(remaining) =>
      if remaining > 0 {
        out := out.(errors := out.errors + [FrameError(count, None, TrailingBytes(remaining))]);
      } else {
        assert out.errors + [] == out.errors;
      }
  }

  /** Nothing more can be split off: the frames so far and the stop are what scanning all bytes gives. */
  lemma DecodedToStop(
      fp: Fp, cat: SignalCatalog, all: seq<byte>, count: nat, frames: seq<RawFrame>, b: seq<byte>, n: nat,
      before: DecodedPacket, out: DecodedPacket)
    requires Decoding(fp, cat, all, count, frames, b, n, before) && (n == 0 || NoFrame(b))
    requires out == WithStop(before, |frames|, StopAt(b, n))
    ensures var (fs, end) := ScanFrames(all, count); out == WithStop(Interpret(fp, cat, fs), |fs|, end)
  {
    ScannedStop(all, count, frames, b, n);
  }

  /** `frames` have been split off and interpreted as `out`; `n` frames are still to come from `b`. */
  predicate Decoding(
      fp: Fp, cat: SignalCatalog, all: seq<byte>, count: nat, frames: seq<RawFrame>, b: seq<byte>, n: nat,
      out: DecodedPacket)
  {
    Scanned(all, count, frames, b, n) && out == Interpret(fp, cat, frames)
  }

  lemma LoopStep(
      fp: Fp, cat: SignalCatalog, all: seq<byte>, count: nat, frames: seq<RawFrame>, b: seq<byte>, n: nat,
      out: DecodedPacket, out': DecodedPacket)
    requires Decoding(fp, cat, all, count, frames, b, n, out) && n > 0
    requires |b| >= FRAME_HEADER_LEN && |b| >= FrameLen(b)
    requires out' == AddFrame(fp, cat, out, |frames|, FrameAt(b))
    ensures Decoding(fp, cat, all, count, frames + [FrameAt(b)], b[FrameLen(b)..], n - 1, out')
  {
    ScannedAdvance(all, count, frames, b, n);
    assert (frames + [FrameAt(b)])[..|frames|] == frames;
  }

  /** The part of the frame loop that consults the catalog. */
  method InterpretFrame(fp: Fp, cat: SignalCatalog, d: DecodedPacket, index: nat, f: RawFrame)
    returns (out: DecodedPacket)
    ensures out == AddFrame(fp, cat, d, index, f)
  {
    out := d;
    var s := cat.ById(f.signalId);
    if s.None? {
      out := out.(unknownSignals := out.unknownSignals + 1);
      return;
    }
    match DecodeValue(fp, s.value, f.payload)
    case Ok(value) =>
      out := out.(samples := out.samples + [Sample(f.signalId, s.value.def.name, f.timestampUs, value)]);
    case Err(kind) =>
      out := out.(errors := out.errors + [FrameError(index, Some(f.signalId), kind)]);
  }

  // ---- writing frames ---------------------------------------------------

  /** A value to be sent for a signal, with the vehicle's time. */
  datatype Reading = Reading(signal: Signal, timestampUs: u64, value: SignalValue)

  function EncodeFrame(fp: Fp, r: Reading): Result<RawFrame, EncodeError> {
    match EncodeValue(fp, r.signal, r.value)
    case Err(e) => Err(e)
    case Ok(payload) => Ok(RawFrame(r.signal.def.id, r.timestampUs, payload))
  }

  function FrameBytes(f: RawFrame): (b: seq<byte>)
    requires |f.payload| <= 255
    ensures |b| == FRAME_HEADER_LEN + |f.payload|
  {
    assert Pow256(2) == 0x1_0000;
    PowEight();
    ToBe(2, f.signalId) + ToBe(8, f.timestampUs) + [|f.payload|] + f.payload
  }

  /** The frames up to the first whose payload is too long, and that frame. */
  function BodyBytes(frames: seq<RawFrame>): Result<seq<byte>, EncodeError> {
    if frames == [] then Ok([])
    else
      var init, f := BodyBytes(frames[..|frames| - 1]), frames[|frames| - 1];
      if init.Err? then init
      else if |f.payload| > 255 then Err(PayloadTooLong(f.signalId, |f.payload|))
      else Ok(init.value + FrameBytes(f))
  }

  function BodyLen(frames: seq<RawFrame>): nat {
    if frames == [] then 0
    else BodyLen(frames[..|frames| - 1]) + FRAME_HEADER_LEN + |frames[|frames| - 1].payload|
  }

  function HeaderBytes(count: byte): seq<byte> {
    assert Pow256(2) == 0x1_0000;
    ToBe(2, MAGIC) + [VERSION, count]
  }

  function EncodeSpec(frames: seq<RawFrame>): Result<seq<byte>, EncodeError> {
    if frames == [] then Err(NoFrames)
    else if |frames| > MAX_FRAMES then Err(TooManyFrames(|frames|))
    else if PACKET_HEADER_LEN + BodyLen(frames) > MAX_DATAGRAM_LEN
      then Err(Oversize(PACKET_HEADER_LEN + BodyLen(frames)))
    else
      match BodyBytes(frames)
      case Err(e) => Err(e)
      case Ok(body) => Ok(HeaderBytes(|frames|) + body)
  }

  /** The whole encoder; the limits on count and size are checked before any byte is written. */
  method EncodePacket(frames: seq<RawFrame>) returns (r: Result<seq<byte>, EncodeError>)
    ensures r == EncodeSpec(frames)
  {
    if frames == [] {
      return Err(NoFrames);
    }
    if |frames| > 255 || |frames| > MAX_FRAMES {
      return Err(TooManyFrames(|frames|));
    }
    var total := PACKET_HEADER_LEN + BodyLen(frames);
    if total > MAX_DATAGRAM_LEN {
      return Err(Oversize(total));
    }
    r := AppendFrames(HeaderBytes(|frames|), frames);
  }

  /** The loop of the encoder: appends every frame to `header`, up to the first whose payload is too long. */
  method AppendFrames(header: seq<byte>, frames: seq<RawFrame>) returns (r: Result<seq<byte>, EncodeError>)
    ensures r == match BodyBytes(frames) { case Err(e) => Err(e) case Ok(body) => Ok(header + body) }
  {
    var out := header;
    ghost var body := [];
    for i := 0 to |frames|
      invariant BodyBytes(frames[..i]) == Ok(body) && out == header + body
    {
      BodyStep(frames, i);
      if |frames[i].payload| > 255 {
        BodyStuck(frames, i + 1);
        return Err(PayloadTooLong(frames[i].signalId, |frames[i].payload|));
      }
      out := out + FrameBytes(frames[i]);
      body := body + FrameBytes(frames[i]);
    }
    assert frames[..|frames|] == frames;
    r := Ok(out);
  }

  lemma BodyStep(frames: seq<RawFrame>, i: nat)
    requires i < |frames| && BodyBytes(frames[..i]).Ok?
    ensures BodyBytes(frames[..i + 1]) ==
            if |frames[i].payload| > 255 then Err(PayloadTooLong(frames[i].signalId, |frames[i].payload|))
            else Ok(BodyBytes(frames[..i]).value + FrameBytes(frames[i]))
  {
    assert frames[..i + 1][..i] == frames[..i];
  }

  /** Once the body fails, longer bodies fail the same way. */
  lemma {:induction false} BodyStuck(frames: seq<RawFrame>, k: nat)
    requires k <= |frames| && BodyBytes(frames[..k]).Err?
    ensures BodyBytes(frames) == BodyBytes(frames[..k])
  {
    if k < |frames| {
      assert frames[..|frames| - 1][..k] == frames[..k];
      BodyStuck(frames[..|frames| - 1], k);
    } else {
      assert frames[..k] == frames;
    }
  }
}
