/** The ingest task: datagrams in, samples out, running totals. */
module Ingest {
  import opened Prelude
  import opened Catalog
  import opened Values
  import opened Packet
  import opened PacketTheorems

  const RECEIVE_BUFFER := 2 * MAX_DATAGRAM_LEN

  /** What `recv_from` leaves of a datagram in the receive buffer. */
  function Seen(datagram: seq<byte>): seq<byte> {
    if |datagram| <= RECEIVE_BUFFER then datagram else datagram[..RECEIVE_BUFFER]
  }

  /** An oversize datagram is rejected as such, never cut to a length that decodes; any other is seen whole. */
  lemma SeenDecodesAlike(fp: Fp, cat: SignalCatalog, datagram: seq<byte>)
    ensures |datagram| > MAX_DATAGRAM_LEN <==>
            exists len :: DecodeSpec(fp, cat, Seen(datagram)) == Err(PacketOversize(len))
    ensures DecodeSpec(fp, cat, Seen(datagram)).Ok? <==> DecodeSpec(fp, cat, datagram).Ok?
    ensures |datagram| <= MAX_DATAGRAM_LEN ==> DecodeSpec(fp, cat, Seen(datagram)) == DecodeSpec(fp, cat, datagram)
  {
    if |datagram| > MAX_DATAGRAM_LEN {
      assert DecodeSpec(fp, cat, Seen(datagram)) == Err(PacketOversize(|Seen(datagram)|));
    }
  }

  /** A rejected packet or frame. */
  datatype Problem = InPacket(e: PacketError) | InFrame(kind: FrameErrorKind)

  function SamplesOf(fp: Fp, cat: SignalCatalog, datagram: seq<byte>): seq<Sample> {
    match DecodeSpec(fp, cat, Seen(datagram))
    case Ok(d) => d.samples
    case Err(_) => []
  }

  function AllSamples(fp: Fp, cat: SignalCatalog, datagrams: seq<seq<byte>>): seq<Sample> {
    if datagrams == [] then []
    else AllSamples(fp, cat, datagrams[..|datagrams| - 1]) + SamplesOf(fp, cat, datagrams[|datagrams| - 1])
  }

  function FrameProblems(errors: seq<FrameError>): multiset<Problem> {
    if errors == [] then multiset{}
    else FrameProblems(errors[..|errors| - 1]) + multiset{InFrame(errors[|errors| - 1].kind)}
  }

  function ProblemsOf(fp: Fp, cat: SignalCatalog, datagram: seq<byte>): multiset<Problem> {
    match DecodeSpec(fp, cat, Seen(datagram))
    case Ok(d) => FrameProblems(d.errors)
    case Err(e) => multiset{InPacket(e)}
  }

  function AllProblems(fp: Fp, cat: SignalCatalog, datagrams: seq<seq<byte>>): multiset<Problem> {
    if datagrams == [] then multiset{}
    else AllProblems(fp, cat, datagrams[..|datagrams| - 1]) + ProblemsOf(fp, cat, datagrams[|datagrams| - 1])
  }

  function UnknownOf(fp: Fp, cat: SignalCatalog, datagram: seq<byte>): nat {
    match DecodeSpec(fp, cat, Seen(datagram))
    case Ok(d) => d.unknownSignals
    case Err(_) => 0
  }

  function AllUnknown(fp: Fp, cat: SignalCatalog, datagrams: seq<seq<byte>>): nat {
    if datagrams == [] then 0
    else AllUnknown(fp, cat, datagrams[..|datagrams| - 1]) + UnknownOf(fp, cat, datagrams[|datagrams| - 1])
  }

  /** Bytes received, before any is rejected. */
  function AllBytes(datagrams: seq<seq<byte>>): nat {
    if datagrams == [] then 0 else AllBytes(datagrams[..|datagrams| - 1]) + |Seen(datagrams[|datagrams| - 1])|
  }

  // ---- what a datagram amounts to ---------------------------------------

  /**
   * One datagram, by its frames alone: the samples of the frames that are known and decode, in order and
   * whatever the other frames are; a count of the unknown frames; and one problem for each reported error.
   * A rejected datagram has no samples and is one problem.
   */
  lemma DatagramShare(fp: Fp, cat: SignalCatalog, datagram: seq<byte>)
    ensures |datagram| > 1500 ==>
              SamplesOf(fp, cat, datagram) == [] && UnknownOf(fp, cat, datagram) == 0
              && ProblemsOf(fp, cat, datagram) ==
                   multiset{InPacket(PacketOversize(if |datagram| <= 3000 then |datagram| else 3000))}
    ensures |datagram| <= 1500 ==>
              if ParsePacket(datagram).Err? then
                && SamplesOf(fp, cat, datagram) == [] && UnknownOf(fp, cat, datagram) == 0
                && ProblemsOf(fp, cat, datagram) == multiset{InPacket(ParsePacket(datagram).error)}
              else
                var frames := ParsePacket(datagram).value.0;
                && SamplesOf(fp, cat, datagram) == DecodableSamples(fp, cat, frames)
                && UnknownOf(fp, cat, datagram) == UnknownFrames(cat, frames)
                && ProblemsOf(fp, cat, datagram) == multiset(KindsOf(DecodeSpec(fp, cat, datagram).value.errors))
  {
    if |datagram| > MAX_DATAGRAM_LEN {
      assert DecodeSpec(fp, cat, Seen(datagram)) == Err(PacketOversize(|Seen(datagram)|));
    } else if ParsePacket(datagram).Ok? {
      DatagramTotals(fp, cat, datagram);
      FrameProblemsExact(DecodeSpec(fp, cat, datagram).value.errors);
    }
  }

  function KindsOf(errors: seq<FrameError>): seq<Problem> {
    seq(|errors|, i requires 0 <= i < |errors| => InFrame(errors[i].kind))
  }

  lemma {:induction false} FrameProblemsExact(errors: seq<FrameError>)
    ensures FrameProblems(errors) == multiset(KindsOf(errors))
  {
    if errors != [] {
      var n := |errors| - 1;
      FrameProblemsExact(errors[..n]);
      assert KindsOf(errors) == KindsOf(errors[..n]) + [InFrame(errors[n].kind)];
    }
  }

  /** One more datagram: its samples go behind the earlier ones, and it adds its own share to every count. */
  lemma OneMoreDatagram(fp: Fp, cat: SignalCatalog, ds: seq<seq<byte>>, d: seq<byte>)
    ensures AllSamples(fp, cat, ds + [d]) == AllSamples(fp, cat, ds) + SamplesOf(fp, cat, d)
    ensures AllProblems(fp, cat, ds + [d]) == AllProblems(fp, cat, ds) + ProblemsOf(fp, cat, d)
    ensures AllUnknown(fp, cat, ds + [d]) == AllUnknown(fp, cat, ds) + UnknownOf(fp, cat, d)
    ensures AllBytes(ds + [d]) == AllBytes(ds) + if |d| <= 3000 then |d| else 3000
    ensures AllSamples(fp, cat, []) == [] && AllProblems(fp, cat, []) == multiset{}
    ensures AllUnknown(fp, cat, []) == AllBytes([]) == 0
  {
    assert (ds + [d])[..|ds|] == ds;
  }

  /** What the ingest task counts over its life. */
  class IngestStats {
    var packets: nat
    var bytes: nat
    var framesDecoded: nat
    var unknownSignals: nat
    var decodeErrors: multiset<Problem>

    constructor ()
      ensures packets == bytes == framesDecoded == unknownSignals == 0 && decodeErrors == multiset{}
    {
      packets, bytes, framesDecoded, unknownSignals, decodeErrors := 0, 0, 0, 0, multiset{};
    }

    /** Counts every rejected frame. */
    method CountErrors(errors: seq<FrameError>)
      modifies this`decodeErrors
      ensures decodeErrors == old(decodeErrors) + FrameProblems(errors)
    {
      for i := 0 to |errors|
        modifies this`decodeErrors
        invariant decodeErrors == old(decodeErrors) + FrameProblems(errors[..i])
      {
        assert errors[..i + 1][..i] == errors[..i];
        decodeErrors := decodeErrors + multiset{InFrame(errors[i].kind)};
      }
      assert errors[..|errors|] == errors;
    }

    /** Counts one datagram and returns its samples. */
    method Receive(fp: Fp, cat: SignalCatalog, datagram: seq<byte>) returns (samples: seq<Sample>)
      modifies this
      ensures samples == SamplesOf(fp, cat, datagram)
      ensures packets == old(packets) + 1 && bytes == old(bytes) + |Seen(datagram)|
      ensures framesDecoded == old(framesDecoded) + |samples|
      ensures unknownSignals == old(unknownSignals) + UnknownOf(fp, cat, datagram)
      ensures decodeErrors == old(decodeErrors) + ProblemsOf(fp, cat, datagram)
    {
      packets := packets + 1;
      bytes := bytes + |Seen(datagram)|;
      var r := DecodePacket(fp, cat, Seen(datagram));
      if r.Err? {
        decodeErrors := decodeErrors + multiset{InPacket(r.error)};
        return [];
      }
      var d := r.value;
      unknownSignals := unknownSignals + d.unknownSignals;
      framesDecoded := framesDecoded + |d.samples|;
      CountErrors(d.errors);
      samples := d.samples;
    }

    /** The receive loop, from its start until the stop flag flips: every sample is forwarded, in order. */
    method RunUdp(fp: Fp, cat: SignalCatalog, datagrams: seq<seq<byte>>) returns (forwarded: seq<Sample>)
      modifies this
      ensures forwarded == AllSamples(fp, cat, datagrams)
      ensures packets == old(packets) + |datagrams| && bytes == old(bytes) + AllBytes(datagrams)
      ensures framesDecoded == old(framesDecoded) + |forwarded|
      ensures unknownSignals == old(unknownSignals) + AllUnknown(fp, cat, datagrams)
      ensures decodeErrors == old(decodeErrors) + AllProblems(fp, cat, datagrams)
    {
      forwarded := [];
      for i := 0 to |datagrams|
        invariant forwarded == AllSamples(fp, cat, datagrams[..i])
        invariant packets == old(packets) + i && bytes == old(bytes) + AllBytes(datagrams[..i])
        invariant framesDecoded == old(framesDecoded) + |forwarded|
        invariant unknownSignals == old(unknownSignals) + AllUnknown(fp, cat, datagrams[..i])
        invariant decodeErrors == old(decodeErrors) + AllProblems(fp, cat, datagrams[..i])
      {
        assert datagrams[..i + 1][..i] == datagrams[..i];
        var samples := Receive(fp, cat, datagrams[i]);
        forwarded := forwarded + samples;
      }
      assert datagrams[..|datagrams|] == datagrams;
    }
  }
}
