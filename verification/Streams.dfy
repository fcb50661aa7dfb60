/** Stream identifiers, stream phases and credit windows: the values a multiplexer keeps per stream. */
module Streams {
  import opened Common

  const ID_CONTROL: nat := 0
  const ID_MAX: nat := 0x7FFF_FFFF
  const MAX_WINDOW: nat := 0x4000_0000
  const MAX_PAYLOAD: nat := 16000
  const PRIORITY_COUNT: nat := 5

  type Priority = p: nat | p < PRIORITY_COUNT

  datatype Role = Client | Server {
    function Peer(): Role {
      if Client? then Server else Client
    }

    function FirstId(): nat {
      if Client? then 1 else 2
    }
  }

  predicate IsClientInitiated(id: nat) {
    id != 0 && id % 2 == 1
  }

  predicate IsServerInitiated(id: nat) {
    id != 0 && id % 2 == 0
  }

  predicate BelongsToPeer(id: nat, mine: Role) {
    id != ID_CONTROL && (if mine.Client? then IsServerInitiated(id) else IsClientInitiated(id))
  }

  datatype Phase = Idle | Open | HalfClosedLocal | HalfClosedRemote | Closed {
    predicate CanSend() {
      Open? || HalfClosedRemote?
    }

    predicate CanRecv() {
      Open? || HalfClosedLocal?
    }

    function OnSentFin(): Phase {
      match this
      case Open => HalfClosedLocal
      case HalfClosedRemote => Closed
      case _ => this
    }

    function OnRecvFin(): Phase {
      match this
      case Open => HalfClosedRemote
      case HalfClosedLocal => Closed
      case _ => this
    }
  }

  /** The two halves of a stream close independently: a FIN ends exactly its own direction. */
  lemma FinClosesOneDirection(p: Phase)
    requires !p.Idle?
    ensures !p.OnSentFin().CanSend() && p.OnSentFin().CanRecv() == p.CanRecv()
    ensures !p.OnRecvFin().CanRecv() && p.OnRecvFin().CanSend() == p.CanSend()
    ensures p.OnSentFin().OnRecvFin() == p.OnRecvFin().OnSentFin() == Closed
  {
  }

  /** Credits for both directions of one window; `None` is the source's -1, which changes nothing. */
  datatype Flow = Flow(sendCredit: int, recvWindow: int) {
    predicate CanSend(n: nat) {
      n <= sendCredit
    }

    function ChargeSend(n: nat): Option<Flow> {
      if sendCredit < n then None else Some(this.(sendCredit := sendCredit - n))
    }

    function ChargeRecv(n: nat): Option<Flow> {
      if recvWindow < n then None else Some(this.(recvWindow := recvWindow - n))
    }

    function GrantRecv(n: nat): Option<Flow> {
      if recvWindow + n > MAX_WINDOW then None else Some(this.(recvWindow := recvWindow + n))
    }

    function GrantSend(n: nat): Option<Flow> {
      if sendCredit + n > MAX_WINDOW then None else Some(this.(sendCredit := sendCredit + n))
    }
  }

  /** The flow a caller that ignores the return code is left with. */
  function Attempt(before: Flow, after: Option<Flow>): Flow {
    if after.Some? then after.value else before
  }

  datatype FrameType = Invalid | Data | Window | Reset | Ping | Pong

  datatype Frame = Frame(kind: FrameType, flags: Byte, id: nat, payload: seq<Byte>) {
    predicate HasFin() {
      flags % 2 == 1
    }
  }

  /** The big-endian increment a WINDOW frame carries in its first four bytes. */
  function WindowDelta(payload: seq<Byte>): nat
    requires |payload| >= 4
  {
    (payload[0] as nat) * 0x100_0000 + (payload[1] as nat) * 0x1_0000 + (payload[2] as nat) * 0x100 + payload[3]
  }

  datatype Stream = Stream(
    phase: Phase,
    flow: Flow,
    priority: Priority,
    outbound: seq<seq<Byte>>,
    inbound: seq<Byte>,
    inboundFin: bool)

  function DefaultPriority(id: nat): Priority {
    if id == 0 then 0 else 2
  }

  function FreshStream(id: nat, window: nat): Stream {
    Stream(Open, Flow(window, window), DefaultPriority(id), [], [], false)
  }

  /** The bytes of a queue of chunks, in order. */
  function Flat(chunks: seq<seq<Byte>>): seq<Byte> {
    if chunks == [] then [] else chunks[0] + Flat(chunks[1..])
  }

  lemma {:induction false} FlatAppend(chunks: seq<seq<Byte>>, c: seq<Byte>)
    ensures Flat(chunks + [c]) == Flat(chunks) + c
  {
    if chunks == [] {
    } else {
      FlatAppend(chunks[1..], c);
      assert (chunks + [c])[1..] == chunks[1..] + [c];
    }
  }
}
