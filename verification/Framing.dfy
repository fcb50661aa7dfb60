/**
  The frame layer: eight header bytes (length, type, flags, two reserved) and a payload, read by a
  streaming parser.
 */
module Framing {
  import opened Common
  import opened BigEndian
  import Reassembly

  const HEADER_SIZE: nat := 8
  const LAST_TYPE: nat := 8

  datatype Frame = Frame(kind: Byte, flags: Byte, payload: seq<Byte>)
  {
    /** A frame that a parser with this limit accepts. */
    predicate Legal(maxFrame: nat) {
      1 <= kind <= LAST_TYPE && |payload| <= maxFrame && |payload| < U32_LIMIT
    }
  }

  datatype Verdict = NeedMore | Ready(frame: Frame) | Oversize | BadType | BadReserved
  {
    predicate Error() {
      Oversize? || BadType? || BadReserved?
    }
  }

  /** The bytes of a frame; the length field keeps only 32 bits. */
  function Encode(f: Frame): seq<Byte> {
    Header(f) + f.payload
  }

  function Header(f: Frame): seq<Byte> {
    Pack(|f.payload|, 4) + [f.kind, f.flags, 0, 0]
  }

  /** What the parser makes of the front of its buffer. */
  function Peek(buf: seq<Byte>, maxFrame: nat): Verdict {
    if |buf| < HEADER_SIZE then NeedMore
    else
      var length := Unpack(buf[..4]);
      if buf[6] != 0 || buf[7] != 0 then BadReserved
      else if length > maxFrame then Oversize
      else if buf[4] == 0 || buf[4] > LAST_TYPE then BadType
      else if |buf| < HEADER_SIZE + length then NeedMore
      else Ready(Frame(buf[4], buf[5], buf[HEADER_SIZE..HEADER_SIZE + length]))
  }

  // ----- Parsing undoes encoding, and nothing else parses -----

  lemma {:induction false} HeaderFields(f: Frame, buf: seq<Byte>)
    requires |buf| >= HEADER_SIZE && buf[..HEADER_SIZE] == Header(f) && |f.payload| < U32_LIMIT
    ensures Unpack(buf[..4]) == |f.payload|
    ensures buf[4] == f.kind && buf[5] == f.flags && buf[6] == 0 && buf[7] == 0
  {
    var h := buf[..HEADER_SIZE];
    assert buf[..4] == h[..4] == Pack(|f.payload|, 4);
    assert Limit(4) == U32_LIMIT;
    UnpackPack(|f.payload|, 4);
    assert buf[4] == h[4] && buf[5] == h[5] && buf[6] == h[6] && buf[7] == h[7];
  }

  /** An encoded frame is read back as soon as its last byte is there, whatever follows. */
  lemma {:induction false} PeekEncoded(f: Frame, tail: seq<Byte>, maxFrame: nat)
    requires f.Legal(maxFrame)
    ensures Peek(Encode(f) + tail, maxFrame) == Ready(f)
  {
    hide Pack, Unpack;
    var buf := Encode(f) + tail;
    assert buf[..HEADER_SIZE] == Header(f);
    HeaderFields(f, buf);
    assert buf[HEADER_SIZE..HEADER_SIZE + |f.payload|] == f.payload;
  }

  /** ... and not before. */
  lemma {:induction false} PeekPrefix(f: Frame, k: nat, maxFrame: nat)
    requires f.Legal(maxFrame) && k < |Encode(f)|
    ensures Peek(Encode(f)[..k], maxFrame) == NeedMore
  {
    hide Pack, Unpack;
    if k >= HEADER_SIZE {
      assert Encode(f)[..k][..HEADER_SIZE] == Header(f);
      HeaderFields(f, Encode(f)[..k]);
    }
  }

  /** Conversely, whatever parses starts with the encoding of the frame it gives. */
  lemma {:induction false} ReadyMeansEncoded(buf: seq<Byte>, maxFrame: nat)
    requires Peek(buf, maxFrame).Ready?
    ensures var f := Peek(buf, maxFrame).frame; f.Legal(maxFrame) && Encode(f) <= buf
  {
    var f := Peek(buf, maxFrame).frame;
    PackUnpack(buf[..4]);
    assert Limit(4) == U32_LIMIT;
    assert Header(f) == buf[..HEADER_SIZE];
    assert Encode(f) == buf[..|Encode(f)|];
  }

  /** An error verdict stays the same however many bytes are fed afterwards. */
  lemma {:induction false} ErrorPersists(buf: seq<Byte>, more: seq<Byte>, maxFrame: nat)
    requires Peek(buf, maxFrame).Error()
    ensures Peek(buf + more, maxFrame) == Peek(buf, maxFrame)
  {
    assert (buf + more)[..4] == buf[..4];
  }

  // ----- Streams of frames -----

  function CutAt(maxFrame: nat): Reassembly.Cutter {
    (buf: seq<Byte>) => CutOf(Peek(buf, maxFrame))
  }

  function CutOf(v: Verdict): Reassembly.Cut {
    if v.NeedMore? then Reassembly.More
    else if v.Ready? then Reassembly.Unit(HEADER_SIZE + |v.frame.payload|)
    else Reassembly.Bad
  }

  function EncodeAll(frames: seq<Frame>): seq<seq<Byte>> {
    seq(|frames|, i requires 0 <= i < |frames| => Encode(frames[i]))
  }

  lemma {:induction false} FramesDelimitThemselves(f: Frame, maxFrame: nat)
    requires f.Legal(maxFrame)
    ensures Reassembly.SelfDelimiting(CutAt(maxFrame), Encode(f))
  {
    hide Peek;
    forall tail
      ensures CutAt(maxFrame)(Encode(f) + tail) == Reassembly.Unit(|Encode(f)|)
    {
      PeekEncoded(f, tail, maxFrame);
    }
    forall k | 0 <= k < |Encode(f)|
      ensures CutAt(maxFrame)(Encode(f)[..k]) == Reassembly.More
    {
      PeekPrefix(f, k, maxFrame);
    }
  }

  /**
    For any legal frames, any split of their bytes and any interleaving of feeding and reading: what
    has been read are the first frames, what is still buffered or unfed are the bytes of the others,
    and once nothing more can be read all of them have come out.
   */
  lemma {:induction false} FramesComeOut(frames: seq<Frame>, maxFrame: nat, actions: seq<Reassembly.Action>)
    requires forall i :: 0 <= i < |frames| ==> frames[i].Legal(maxFrame)
    ensures var s := Reassembly.Run(CutAt(maxFrame), None, Reassembly.Start(EncodeAll(frames)), actions);
            && Reassembly.InStep(s, EncodeAll(frames)) && |s.taken| <= |frames|
            && (forall i :: 0 <= i < |s.taken| ==> Peek(s.taken[i], maxFrame) == Ready(frames[i]))
            && (s.pending == [] && Peek(s.buffer, maxFrame) == NeedMore ==> |s.taken| == |frames| && s.buffer == [])
  {
    hide Peek;
    var cut, units := CutAt(maxFrame), EncodeAll(frames);
    forall i | 0 <= i < |units|
      ensures Reassembly.SelfDelimiting(cut, units[i]) && Peek(units[i], maxFrame) == Ready(frames[i])
    {
      FramesDelimitThemselves(frames[i], maxFrame);
      PeekEncoded(frames[i], [], maxFrame);
      assert Encode(frames[i]) + [] == units[i];
    }
    EmptyNeedsMore(maxFrame);
    Reassembly.StartInStep(units);
    Reassembly.RunKeeps(cut, None, Reassembly.Start(units), units, actions);
    var s := Reassembly.Run(cut, None, Reassembly.Start(units), actions);
    assert forall i :: 0 <= i < |s.taken| ==> s.taken[i] == units[i];
    if s.pending == [] && Peek(s.buffer, maxFrame) == NeedMore {
      Reassembly.DrainedMeansAll(cut, s, units);
    }
  }

  lemma {:induction false} EmptyNeedsMore(maxFrame: nat)
    ensures CutAt(maxFrame)([]) == Reassembly.More
  {
  }

  // ----- The parser -----

  class FrameParser {
    var buf: seq<Byte>
    const maxFrame: nat

    constructor (maxFrame: nat)
      ensures buf == [] && this.maxFrame == maxFrame
    {
      buf := [];
      this.maxFrame := maxFrame;
    }

    method Feed(data: seq<Byte>)
      modifies this
      ensures buf == old(buf) + data
    {
      buf := buf + data;
    }

    /** Takes the next frame off the front of the buffer; any other verdict leaves the buffer alone. */
    method Next() returns (v: Verdict)
      modifies this
      ensures v == Peek(old(buf), maxFrame)
      ensures old(buf) == if v.Ready? then Encode(v.frame) + buf else buf
    {
      hide Encode;
      if |buf| < HEADER_SIZE {
        return NeedMore;
      }
      var length := Unpack(buf[..4]);
      var kind, flags := buf[4], buf[5];
      if buf[6] != 0 || buf[7] != 0 {
        return BadReserved;
      }
      if length > maxFrame {
        return Oversize;
      }
      if kind == 0 || kind > LAST_TYPE {
        return BadType;
      }
      var total := HEADER_SIZE + length;
      if |buf| < total {
        return NeedMore;
      }
      v := Ready(Frame(kind, flags, buf[HEADER_SIZE..total]));
      ReadyMeansEncoded(buf, maxFrame);
      EncodedSize(v.frame);
      buf := buf[total..];
    }

    method Reset()
      modifies this
      ensures buf == []
    {
      buf := [];
    }
  }

  lemma {:induction false} EncodedSize(f: Frame)
    ensures |Encode(f)| == HEADER_SIZE + |f.payload|
  {
  }

  /** Fills a fresh buffer with the bytes of a frame. */
  method EncodeFrame(kind: Byte, flags: Byte, payload: seq<Byte>) returns (out: array<Byte>)
    ensures fresh(out) && out[..] == Encode(Frame(kind, flags, payload))
  {
    hide Pack;
    out := new Byte[HEADER_SIZE + |payload|](_ => 0);
    var length := Pack(|payload|, 4);
    out[0], out[1], out[2], out[3] := length[0], length[1], length[2], length[3];
    out[4] := kind;
    out[5] := flags;
    out[6], out[7] := 0, 0;
    forall i | 0 <= i < |payload| {
      out[HEADER_SIZE + i] := payload[i];
    }
    assert out[..HEADER_SIZE] == Header(Frame(kind, flags, payload));
    assert out[HEADER_SIZE..] == payload;
    assert out[..] == out[..HEADER_SIZE] + out[HEADER_SIZE..];
  }
}
