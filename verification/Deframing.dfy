/**
 * What a whole byte stream means as frames, independently of how it arrives: the reference for the
 * reassembly loop of routerd/src/ipc_server.c:57-113.
 */
module Deframing {
  import opened Bytes
  import opened ProtoCodec

  // How the stream ends after its complete frames: with bytes that are no frame yet, or broken for good.
  datatype End = Residue(bytes: seq<Byte>) | Broken(error: Error)

  datatype Stream = Stream(frames: seq<Frame>, end: End)

  // One-shot deframing of a whole stream.
  function Deframe(s: seq<Byte>): (r: Stream)
    decreases |s|
  {
    match Decode(s)
    case Incomplete => Stream([], Residue(s))
    case Rejected(error) => Stream([], Broken(error))
    case Complete(frame, consumed) =>
      var rest := Deframe(s[consumed..]);
      Stream([frame] + rest.frames, rest.end)
  }

  // Deframing what has arrived and later deframing the residue with what arrives next is deframing it all.
  lemma {:induction false} DeframeAppend(s: seq<Byte>, more: seq<Byte>)
    ensures var a := Deframe(s);
            a.end.Residue? ==>
              var b := Deframe(a.end.bytes + more);
              Deframe(s + more) == Stream(a.frames + b.frames, b.end)
    ensures Deframe(s).end.Broken? ==> Deframe(s + more) == Deframe(s)
    decreases |s|
  {
    DeframeShape(s);
    DeframeShape(s + more);
    hide Decode, Deframe;
    match Decode(s)
    case Incomplete =>
      var b := Deframe(s + more);
      assert [] + b.frames == b.frames;
    case Rejected(error) =>
      DecodeStable(s, more);
    case Complete(frame, consumed) =>
      DecodeStable(s, more);
      assert (s + more)[consumed..] == s[consumed..] + more;
      DeframeAppend(s[consumed..], more);
      var a := Deframe(s[consumed..]);
      if a.end.Residue? {
        var b := Deframe(a.end.bytes + more);
        assert [frame] + (a.frames + b.frames) == ([frame] + a.frames) + b.frames;
      }
  }

  lemma DeframeShape(s: seq<Byte>)
    ensures Decode(s).Incomplete? ==> Deframe(s) == Stream([], Residue(s))
    ensures Decode(s).Rejected? ==> Deframe(s) == Stream([], Broken(Decode(s).error))
    ensures Decode(s).Complete? ==>
              var rest := Deframe(s[Decode(s).consumed..]);
              Deframe(s) == Stream([Decode(s).frame] + rest.frames, rest.end)
  {
    hide Decode;
  }

  // The residue is always shorter than a maximal frame, so a receive buffer of that size is never full.
  lemma {:induction false} ResidueIsShort(s: seq<Byte>)
    ensures Deframe(s).end.Residue? ==> |Deframe(s).end.bytes| < 12 + 65536
    decreases |s|
  {
    hide Wire;
    if Decode(s).Complete? {
      ResidueIsShort(s[Decode(s).consumed..]);
    }
  }

  predicate Encodable(frames: seq<Frame>) {
    forall i :: 0 <= i < |frames| ==> |frames[i].payload| <= MAX_PAYLOAD
  }

  // The bytes of several encoded frames back to back.
  function WireAll(frames: seq<Frame>): (t: seq<Byte>)
    requires Encodable(frames)
  {
    if frames == [] then [] else Wire(frames[0]) + WireAll(frames[1..])
  }

  // Concatenated encodings deframe to exactly the frames that were encoded, with nothing left over.
  lemma {:induction false} DeframeWire(frames: seq<Frame>)
    requires Encodable(frames)
    ensures Deframe(WireAll(frames)) == Stream(frames, Residue([]))
  {
    if frames != [] {
      var rest := WireAll(frames[1..]);
      DecodeWire(frames[0], rest);
      DeframeShape(Wire(frames[0]) + rest);
      hide Decode, Wire, Deframe;
      DeframeWire(frames[1..]);
      assert (Wire(frames[0]) + rest)[|Wire(frames[0])|..] == rest;
      assert frames == [frames[0]] + frames[1..];
    }
  }

  // Conversely a stream is its frames' encodings followed by what is left, which is not yet a frame or never will be.
  lemma {:induction false} WireDeframe(s: seq<Byte>)
    ensures Encodable(Deframe(s).frames)
    ensures var n := |WireAll(Deframe(s).frames)|;
            && n <= |s| && s[..n] == WireAll(Deframe(s).frames)
            && (Deframe(s).end.Residue? ==> Deframe(s).end.bytes == s[n..] && Decode(s[n..]).Incomplete?)
            && (Deframe(s).end.Broken? ==> Decode(s[n..]) == Rejected(Deframe(s).end.error))
    decreases |s|
  {
    DeframeShape(s);
    hide Decode, Wire, Deframe;
    match Decode(s)
    case Incomplete =>
      assert s[0..] == s && s[..0] == [];
    case Rejected(_) =>
      assert s[..0] == [] && s[0..] == s;
    case Complete(frame, consumed) =>
      WireDecode(s);
      var tail := s[consumed..];
      WireDeframe(tail);
      var rest := Deframe(tail);
      assert ([frame] + rest.frames)[1..] == rest.frames;
      SplitTwice(s, consumed, |WireAll(rest.frames)|);
  }

  lemma SplitTwice(s: seq<Byte>, i: nat, j: nat)
    requires i + j <= |s|
    ensures s[..i + j] == s[..i] + s[i..][..j] && s[i + j..] == s[i..][j..]
  {
  }
}
