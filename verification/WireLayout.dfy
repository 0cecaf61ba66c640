/** Where every field of a packet sits, byte by byte, and what the header and the leftover bytes are reported as. */
module WireLayout {
  import opened Prelude
  import opened Bytes
  import opened Catalog
  import opened Values
  import opened Packet
  import opened PacketTheorems

  // ---- numbers as bytes -------------------------------------------------

  /** Big-endian: the first byte counts most. */
  lemma {:induction false} BigEndianPlaces(x: byte, rest: seq<byte>)
    ensures FromBe([x] + rest) == x * Pow256(|rest|) + FromBe(rest)
    decreases |rest|
  {
    var b := [x] + rest;
    if rest == [] {
      assert b[..0] == [] && FromBe(b[..0]) == 0;
    } else {
      var n := |rest| - 1;
      BigEndianPlaces(x, rest[..n]);
      assert b[..n + 1] == [x] + rest[..n];
      Distribute(x, Pow256(n), FromBe(rest[..n]), rest[n]);
    }
  }

  lemma Distribute(x: nat, p: nat, v: nat, last: nat)
    ensures 256 * (x * p + v) + last == x * (256 * p) + (256 * v + last)
  {
  }

  /** Little-endian: the first byte counts least. */
  lemma LittleEndianPlaces(x: byte, rest: seq<byte>)
    ensures FromLe([x] + rest) == x + 256 * FromLe(rest)
  {
    assert ([x] + rest)[1..] == rest;
  }

  /** The unsigned reading in the signal's byte order; no bytes are zero. */
  lemma UnsignedReads(p: seq<byte>)
    ensures ReadInt(false, Big, p) == FromBe(p) && ReadInt(false, Little, p) == FromLe(p)
    ensures FromBe([]) == 0 && FromLe([]) == 0
  {
  }

  /** Two's complement: a value with the top bit set stands for that value less 256 to the number of bytes. */
  lemma SignedReads(endian: Endian, p: seq<byte>)
    ensures var u := ReadInt(false, endian, p);
            ReadInt(true, endian, p) == if 2 * u < Pow256(|p|) then u else u - Pow256(|p|)
  {
  }

  // ---- an encoded packet ------------------------------------------------

  /** The four bytes of the header: "TE", the version, the number of frames. */
  lemma EncodedHeader(frames: seq<RawFrame>)
    requires EncodeSpec(frames).Ok?
    ensures var b := EncodeSpec(frames).value;
            && |b| == 4 + BodyLen(frames)
            && b[0] == 0x54 && b[1] == 0x45 && b[2] == 1 && b[3] == |frames|
  {
    EncodeSucceedsIff(frames);
    HeaderReadsBack(|frames|, BodyBytes(frames).value);
    MagicBytes();
  }

  lemma MagicBytes()
    ensures Pow256(2) == 0x1_0000 && ToBe(2, MAGIC) == [0x54, 0x45]
  {
    assert Pow256(2) == 0x1_0000 && Pow256(1) == 256;
    assert ToBe(0, 0) == [] && ToBe(1, 0x54) == ToBe(0, 0) + [0x54];
    assert ToBe(2, MAGIC) == ToBe(1, 0x54) + [0x45];
  }

  /** The body up to frame `i` is a prefix of the body, and frame `i` follows it. */
  lemma {:induction false} BodySplits(frames: seq<RawFrame>, i: nat)
    requires i < |frames| && BodyBytes(frames).Ok?
    ensures |frames[i].payload| <= 255 && BodyLen(frames[..i]) + 11 + |frames[i].payload| <= BodyLen(frames)
    ensures var body, off := BodyBytes(frames).value, BodyLen(frames[..i]);
            |body| == BodyLen(frames) && body[off..off + 11 + |frames[i].payload|] == FrameBytes(frames[i])
    decreases |frames|
  {
    var n := |frames| - 1;
    var init := frames[..n];
    BodyOkIff(frames);
    BodyOkIff(init);
    var body, off := BodyBytes(frames).value, BodyLen(frames[..i]);
    assert body == BodyBytes(init).value + FrameBytes(frames[n]);
    if i < n {
      assert init[i] == frames[i] && init[..i] == frames[..i];
      BodySplits(init, i);
      assert body[off..off + 11 + |frames[i].payload|]
          == BodyBytes(init).value[off..off + 11 + |frames[i].payload|];
    }
  }

  /**
   * Frame `i` of an encoded packet, from its offset on: two bytes of signal id, eight bytes of
   * timestamp, both big-endian, one byte of payload length, the payload.
   */
  lemma EncodedFrame(frames: seq<RawFrame>, i: nat)
    requires EncodeSpec(frames).Ok? && i < |frames|
    ensures var b, f, off := EncodeSpec(frames).value, frames[i], 4 + BodyLen(frames[..i]);
            && off + 11 + |f.payload| <= |b|
            && FromBe(b[off..off + 2]) == f.signalId && FromBe(b[off + 2..off + 10]) == f.timestampUs
            && b[off + 10] == |f.payload| && b[off + 11..off + 11 + |f.payload|] == f.payload
  {
    EncodeSucceedsIff(frames);
    BodySplits(frames, i);
    HeaderReadsBack(|frames|, BodyBytes(frames).value);
    var b, f, off := EncodeSpec(frames).value, frames[i], 4 + BodyLen(frames[..i]);
    var body, len := BodyBytes(frames).value, 11 + |f.payload|;
    assert b[off..off + len] == body[off - 4..off - 4 + len];
    FieldsWithin(f, b, off);
  }

  lemma FieldsWithin(f: RawFrame, b: seq<byte>, off: nat)
    requires |f.payload| <= 255 && off + 11 + |f.payload| <= |b| && b[off..off + 11 + |f.payload|] == FrameBytes(f)
    ensures FromBe(b[off..off + 2]) == f.signalId && FromBe(b[off + 2..off + 10]) == f.timestampUs
    ensures b[off + 10] == |f.payload| && b[off + 11..off + 11 + |f.payload|] == f.payload
  {
    var frame := b[off..off + 11 + |f.payload|];
    FrameFields(f, frame);
    SliceOfSlice(b, off, off + 11 + |f.payload|, 0, 2);
    SliceOfSlice(b, off, off + 11 + |f.payload|, 2, 10);
    SliceOfSlice(b, off, off + 11 + |f.payload|, 11, |frame|);
    assert frame[..2] == frame[0..2] && frame[11..] == frame[11..|frame|] && frame[10] == b[off + 10];
  }

  lemma SliceOfSlice<T>(s: seq<T>, a: nat, b: nat, i: nat, j: nat)
    requires i <= j && a + j <= b <= |s|
    ensures s[a..b][i..j] == s[a + i..a + j]
  {
    var left, right := s[a..b][i..j], s[a + i..a + j];
    assert |left| == |right|;
    forall k | 0 <= k < |left| ensures left[k] == right[k] {
      assert left[k] == s[a..b][i + k] == s[a + (i + k)];
    }
  }

  lemma FrameFields(f: RawFrame, b: seq<byte>)
    requires |f.payload| <= 255 && b == FrameBytes(f)
    ensures FromBe(b[..2]) == f.signalId && FromBe(b[2..10]) == f.timestampUs
    ensures b[10] == |f.payload| && b[11..] == f.payload
  {
    assert Pow256(2) == 0x1_0000;
    PowEight();
    BeWriteRead(2, f.signalId);
    BeWriteRead(8, f.timestampUs);
    assert b[..2] == ToBe(2, f.signalId) && b[2..10] == ToBe(8, f.timestampUs);
  }

  /** Which error encoding fails with: the first exceeded limit, and the first payload that is too long. */
  lemma EncodeErrorIs(frames: seq<RawFrame>)
    ensures frames == [] ==> EncodeSpec(frames) == Err(NoFrames)
    ensures |frames| > 64 ==> EncodeSpec(frames) == Err(TooManyFrames(|frames|))
    ensures 1 <= |frames| <= 64 && 4 + BodyLen(frames) > 1500 ==>
              EncodeSpec(frames) == Err(Oversize(4 + BodyLen(frames)))
    ensures 1 <= |frames| <= 64 && 4 + BodyLen(frames) <= 1500 ==>
              forall i :: IsFirstTooLong(frames, i) ==>
                EncodeSpec(frames) == Err(PayloadTooLong(frames[i].signalId, |frames[i].payload|))
  {
    forall i | IsFirstTooLong(frames, i)
      ensures BodyBytes(frames) == Err(PayloadTooLong(frames[i].signalId, |frames[i].payload|))
    {
      FirstTooLong(frames, i);
    }
  }

  predicate IsFirstTooLong(frames: seq<RawFrame>, i: int) {
    && 0 <= i < |frames| && |frames[i].payload| > 255
    && forall j :: 0 <= j < i ==> |frames[j].payload| <= 255
  }

  lemma FirstTooLong(frames: seq<RawFrame>, i: nat)
    requires IsFirstTooLong(frames, i)
    ensures BodyBytes(frames) == Err(PayloadTooLong(frames[i].signalId, |frames[i].payload|))
  {
    var before := frames[..i];
    forall j | 0 <= j < |before| ensures |before[j].payload| <= 255 {
      assert before[j] == frames[j];
    }
    BodyOkIff(before);
    BodyStep(frames, i);
    BodyStuck(frames, i + 1);
  }

  // ---- a received datagram ----------------------------------------------

  /** What a header is refused for, in the order of the checks; otherwise the frames are looked at. */
  lemma HeaderVerdict(b: seq<byte>)
    ensures var r := ParsePacket(b);
            if |b| > 1500 then r == Err(PacketOversize(|b|))
            else if |b| < 4 then r == Err(HeaderTruncated(|b|))
            else if b[0] != 0x54 || b[1] != 0x45 then r == Err(BadMagic(256 * (b[0] as int) + b[1]))
            else if b[2] != 1 then r == Err(BadVersion(b[2]))
            else if b[3] == 0 then r == Err(ZeroFrames)
            else if b[3] > 64 then r == Err(FrameCountTooLarge(b[3]))
            else r.Ok?
  {
    if |b| >= 4 {
      TwoBytes(b[..2]);
    }
  }

  lemma TwoBytes(b: seq<byte>)
    requires |b| == 2
    ensures U16Of(b) == 256 * (b[0] as int) + b[1]
  {
    assert b[..1][..0] == [] && FromBe(b[..1][..0]) == 0;
    assert FromBe(b[..1]) == b[0] && b[..1][0] == b[0];
  }

  /** Frames lie one behind the other; what scanning leaves starts where the last complete one ends. */
  lemma {:induction false} ScanLeaves(b: seq<byte>, n: nat)
    ensures var (frames, stop) := ScanFrames(b, n);
            && BodyLen(frames) <= |b|
            && stop == StopAt(b[BodyLen(frames)..], n - |frames|)
            && (|frames| < n ==> NoFrame(b[BodyLen(frames)..]))
    decreases n
  {
    if n == 0 || NoFrame(b) {
      assert b[BodyLen([])..] == b;
    } else {
      var rest := b[FrameLen(b)..];
      ScanLeaves(rest, n - 1);
      var fs := ScanFrames(rest, n - 1).0;
      BodyLenHead(FrameAt(b), fs);
      assert rest[BodyLen(fs)..] == b[BodyLen([FrameAt(b)] + fs)..];
    }
  }

  lemma {:induction false} BodyLenHead(f: RawFrame, fs: seq<RawFrame>)
    ensures BodyLen([f] + fs) == FRAME_HEADER_LEN + |f.payload| + BodyLen(fs)
    decreases |fs|
  {
    var all := [f] + fs;
    if fs == [] {
      assert all[..0] == [];
    } else {
      assert all[..|fs|] == [f] + fs[..|fs| - 1];
      BodyLenHead(f, fs[..|fs| - 1]);
    }
  }

  /**
   * The report on what stopped the loop: with all frames complete, the number of bytes behind
   * them, if any; otherwise that the next frame is cut, with its signal id if two bytes of it are there.
   */
  lemma StopReport(fp: Fp, cat: SignalCatalog, b: seq<byte>)
    requires ParsePacket(b).Ok?
    ensures BodyLen(ParsePacket(b).value.0) <= |b| - 4
    ensures var frames, d := ParsePacket(b).value.0, DecodeSpec(fp, cat, b).value;
            var rest := b[4..][BodyLen(frames)..];
            && d.errors == Interpret(fp, cat, frames).errors +
                 (if |frames| < b[3] then
                    var id: Option<u16> := if |rest| < 2 then None else Some(256 * (rest[0] as int) + rest[1]);
                    [FrameError(|frames|, id, Truncated)]
                  else if |rest| > 0 then [FrameError(b[3], None, TrailingBytes(|rest|))]
                  else [])
            && (|frames| < b[3] ==> |rest| < 11 || |rest| < 11 + (rest[10] as int))
  {
    ScanLeaves(b[4..], b[3]);
    var frames := ParsePacket(b).value.0;
    StopSpelledOut(b[4..][BodyLen(frames)..], |frames|, b[3]);
  }

  lemma StopSpelledOut(rest: seq<byte>, n: nat, count: nat)
    requires n <= count
    ensures StopErrors(n, StopAt(rest, count - n)) ==
            if n < count then
              [FrameError(n, if |rest| < 2 then None else Some(256 * (rest[0] as int) + rest[1]), Truncated)]
            else if |rest| > 0 then [FrameError(count, None, TrailingBytes(|rest|))]
            else []
  {
    if |rest| >= 2 {
      TwoBytes(rest[..2]);
    }
  }
}
