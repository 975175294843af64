/**
 * The frame codec (routerd/src/proto_codec.c, routerd/include/protocol.h): a 12-byte little-endian header
 * (magic, version, command, sequence number, payload length) and up to 64 KiB of payload.
 */
module ProtoCodec {
  import opened Bytes

  const MAGIC: int := 0xEB7C
  const VERSION: int := 1
  const MAX_PAYLOAD: int := 65536
  const HEADER_SIZE: nat := 12

  type U8 = n: int | 0 <= n < 0x100
  type U32 = n: int | 0 <= n < 0x1_0000_0000

  // What a sender chooses; magic, version and length are filled in by the encoder.
  datatype Frame = Frame(cmd: U8, seqNo: U32, payload: seq<Byte>)

  datatype Error = BufferTooSmall | BadMagic | BadVersion | PayloadTooLarge

  // ---------------------------------------------------------------- integers

  function Le16(n: int): (t: seq<Byte>)
    requires 0 <= n < 0x10000
    ensures |t| == 2
  {
    [n % 256, n / 256]
  }

  function Le32(n: U32): (t: seq<Byte>)
    ensures |t| == 4
  {
    [n % 256, n / 256 % 256, n / 65536 % 256, n / 16777216]
  }

  function FromLe16(t: seq<Byte>): (n: int)
    requires |t| == 2
    ensures 0 <= n < 0x10000
  {
    t[0] as int + t[1] as int * 256
  }

  function FromLe32(t: seq<Byte>): (n: U32)
    requires |t| == 4
  {
    t[0] as int + t[1] as int * 256 + t[2] as int * 65536 + t[3] as int * 16777216
  }

  lemma Le32RoundTrip(n: U32)
    ensures FromLe32(Le32(n)) == n
  {
    assert n / 256 == n / 65536 * 256 + n / 256 % 256;
    assert n / 65536 == n / 16777216 * 256 + n / 65536 % 256;
  }

  lemma FromLe32RoundTrip(t: seq<Byte>)
    requires |t| == 4
    ensures Le32(FromLe32(t)) == t
  {
    var n := FromLe32(t);
    assert n / 256 == t[1] as int + t[2] as int * 256 + t[3] as int * 65536;
    assert n / 65536 == t[2] as int + t[3] as int * 256;
    assert n / 16777216 == t[3];
  }

  // ---------------------------------------------------------------- frames

  function Header(cmd: U8, seqNo: U32, length: U32): (t: seq<Byte>)
    ensures |t| == HEADER_SIZE
  {
    Le16(MAGIC) + [VERSION, cmd] + Le32(seqNo) + Le32(length)
  }

  // The bytes of a frame on the wire.
  function Wire(f: Frame): (t: seq<Byte>)
    requires |f.payload| <= MAX_PAYLOAD
    ensures |t| == HEADER_SIZE + |f.payload|
  {
    Header(f.cmd, f.seqNo, |f.payload|) + f.payload
  }

  datatype Decoded = Incomplete | Rejected(error: Error) | Complete(frame: Frame, consumed: nat)

  // proto_decode. A bad header is reported as soon as the header is there, whatever else is missing.
  function Decode(s: seq<Byte>): (d: Decoded)
    ensures d.Complete? ==> HEADER_SIZE <= d.consumed <= |s| && |d.frame.payload| <= MAX_PAYLOAD
                            && d.consumed == HEADER_SIZE + |d.frame.payload|
    ensures d.Incomplete? ==> |s| < HEADER_SIZE + MAX_PAYLOAD
    ensures d.Rejected? ==> d.error != BufferTooSmall && |s| >= HEADER_SIZE
  {
    if |s| < HEADER_SIZE then Incomplete
    else if FromLe16(s[0..2]) != MAGIC then Rejected(BadMagic)
    else if s[2] != VERSION then Rejected(BadVersion)
    else
      var length := FromLe32(s[8..12]);
      if length > MAX_PAYLOAD then Rejected(PayloadTooLarge)
      else if |s| < HEADER_SIZE + length then Incomplete
      else Complete(Frame(s[3], FromLe32(s[4..8]), s[12..12 + length]), HEADER_SIZE + length)
  }

  // The layout, byte by byte: magic, version, command, then sequence number and payload length with the least
  // byte first, then the payload.
  lemma WireLayout(f: Frame)
    requires |f.payload| <= 65536
    ensures var t := Wire(f);
            && |t| == 12 + |f.payload|
            && t[0] == 0x7C && t[1] == 0xEB && t[2] == 1 && t[3] == f.cmd
            && f.seqNo == t[4] as int + 256 * t[5] as int + 65536 * t[6] as int + 16777216 * t[7] as int
            && |f.payload| == t[8] as int + 256 * t[9] as int + 65536 * t[10] as int + 16777216 * t[11] as int
            && t[12..] == f.payload
  {
    hide Le32, FromLe32;
    var t := Wire(f);
    assert t[4..8] == Le32(f.seqNo) && t[8..12] == Le32(|f.payload|);
    Le32Sum(f.seqNo);
    Le32Sum(|f.payload|);
    assert t[4] == t[4..8][0] && t[5] == t[4..8][1] && t[6] == t[4..8][2] && t[7] == t[4..8][3];
    assert t[8] == t[8..12][0] && t[9] == t[8..12][1] && t[10] == t[8..12][2] && t[11] == t[8..12][3];
  }

  lemma Le32Sum(n: U32)
    ensures var t := Le32(n); n == t[0] as int + 256 * t[1] as int + 65536 * t[2] as int + 16777216 * t[3] as int
  {
    Le32RoundTrip(n);
  }

  // What each verdict of the decoder means for the bytes, and where a frame's fields come from.
  lemma DecodeLayout(s: seq<Byte>)
    ensures |s| < 12 ==> Decode(s) == Incomplete
    ensures |s| >= 12 ==>
              var length := s[8] as int + 256 * s[9] as int + 65536 * s[10] as int + 16777216 * s[11] as int;
              var magic := s[0] == 0x7C && s[1] == 0xEB;
              && (Decode(s) == Rejected(BadMagic) <==> !magic)
              && (Decode(s) == Rejected(BadVersion) <==> magic && s[2] != 1)
              && (Decode(s) == Rejected(PayloadTooLarge) <==> magic && s[2] == 1 && length > 65536)
              && (Decode(s).Incomplete? <==> magic && s[2] == 1 && length <= 65536 && |s| < 12 + length)
              && (Decode(s).Complete? <==> magic && s[2] == 1 && length <= 65536 && |s| >= 12 + length)
              && (Decode(s).Complete? ==>
                    var seqNo := s[4] as int + 256 * s[5] as int + 65536 * s[6] as int + 16777216 * s[7] as int;
                    Decode(s) == Complete(Frame(s[3], seqNo, s[12..12 + length]), 12 + length))
  {
    if |s| >= 12 {
      assert s[0..2][0] == s[0] && s[0..2][1] == s[1];
      assert s[4..8] == [s[4], s[5], s[6], s[7]];
      assert s[8..12] == [s[8], s[9], s[10], s[11]];
    }
  }

  // A frame at the front of any bytes is decoded back and its bytes are consumed exactly.
  lemma DecodeWire(f: Frame, rest: seq<Byte>)
    requires |f.payload| <= MAX_PAYLOAD
    ensures Decode(Wire(f) + rest) == Complete(f, |Wire(f)|)
  {
    hide Le32, FromLe32;
    var s := Wire(f) + rest;
    assert s[0..2] == Le16(MAGIC);
    assert s[4..8] == Le32(f.seqNo);
    assert s[8..12] == Le32(|f.payload|);
    assert s[12..12 + |f.payload|] == f.payload;
    Le32RoundTrip(f.seqNo);
    Le32RoundTrip(|f.payload|);
  }

  // Re-encoding a decoded frame gives back the bytes that were consumed.
  lemma WireDecode(s: seq<Byte>)
    requires Decode(s).Complete?
    ensures Wire(Decode(s).frame) == s[..Decode(s).consumed]
  {
    hide Le32, FromLe32;
    var d := Decode(s);
    FromLe32RoundTrip(s[4..8]);
    FromLe32RoundTrip(s[8..12]);
    assert Le16(MAGIC) == s[0..2];
    assert s[..d.consumed] == s[0..2] + [s[2], s[3]] + s[4..8] + s[8..12] + s[12..d.consumed];
  }

  // More input never changes a verdict that has been reached.
  lemma DecodeStable(s: seq<Byte>, more: seq<Byte>)
    requires !Decode(s).Incomplete?
    ensures Decode(s + more) == Decode(s)
  {
    hide FromLe32, FromLe16;
    var t := s + more;
    assert t[0..2] == s[0..2] && t[2] == s[2] && t[3] == s[3];
    assert t[4..8] == s[4..8] && t[8..12] == s[8..12];
    if Decode(s).Complete? {
      var n := Decode(s).consumed;
      assert t[12..n] == s[12..n];
    }
  }

  // ---------------------------------------------------------------- the encoder

  lemma LayoutAtFront(f: Frame, t: seq<Byte>, n: nat)
    requires |f.payload| <= 65536 && n == |Wire(f)| <= |t| && t[..n] == Wire(f)
    ensures n == 12 + |f.payload|
    ensures t[0] == 0x7C && t[1] == 0xEB && t[2] == 1 && t[3] == f.cmd
    ensures f.seqNo == t[4] as int + 256 * t[5] as int + 65536 * t[6] as int + 16777216 * t[7] as int
    ensures |f.payload| == t[8] as int + 256 * t[9] as int + 65536 * t[10] as int + 16777216 * t[11] as int
    ensures t[12..n] == f.payload
  {
    hide Wire;
    WireLayout(f);
    assert forall i :: 0 <= i < 12 ==> Wire(f)[i] == t[i];
    assert t[12..n] == Wire(f)[12..];
  }

  // proto_encode: header and payload stored at the front of the caller's buffer, nothing behind them. The
  // payload may be longer than any caller's buffer; the length check comes first.
  method Encode(f: Frame, output: array<Byte>) returns (written: int, error: Option<Error>)
    modifies output
    ensures error == if |f.payload| > MAX_PAYLOAD then Some(PayloadTooLarge)
                     else if output.Length < HEADER_SIZE + |f.payload| then Some(BufferTooSmall)
                     else None
    ensures error.Some? ==> output[..] == old(output[..])
    ensures error.None? ==>
              && written == |Wire(f)| <= output.Length
              && output[..written] == Wire(f)
              && output[written..] == old(output[written..])
    ensures error.None? ==>
              var t := output[..];
              && written == 12 + |f.payload| <= |t|
              && t[0] == 0x7C && t[1] == 0xEB && t[2] == 1 && t[3] == f.cmd
              && f.seqNo == t[4] as int + 256 * t[5] as int + 65536 * t[6] as int + 16777216 * t[7] as int
              && |f.payload| == t[8] as int + 256 * t[9] as int + 65536 * t[10] as int + 16777216 * t[11] as int
              && t[12..written] == f.payload
  {
    hide Header;
    if |f.payload| > MAX_PAYLOAD {
      return -1, Some(PayloadTooLarge);
    }
    var need := HEADER_SIZE + |f.payload|;
    if output.Length < need {
      return -1, Some(BufferTooSmall);
    }
    var header := Header(f.cmd, f.seqNo, |f.payload|);
    forall i | 0 <= i < HEADER_SIZE {
      output[i] := header[i];
    }
    if |f.payload| > 0 {
      forall i | 0 <= i < |f.payload| {
        output[HEADER_SIZE + i] := f.payload[i];
      }
    }
    assert output[..need] == Wire(f);
    LayoutAtFront(f, output[..], need);
    return need, None;
  }
}
