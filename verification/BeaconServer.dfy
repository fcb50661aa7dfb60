/**
  The beacon server: per client it peeks at the replay window, authenticates, checks the clock, and
  only then commits the sequence number. The AEAD is an ideal one; the clocks are inputs.
 */
module Beacon {
  import opened Common
  import opened BigEndian
  import opened Replay
  import Nonce
  import Record

  const HEADER_LEN: nat := 32
  const MAX_PAYLOAD: nat := 1024
  const REPLAY_WORDS: nat := 16

  datatype Header = Header(
    clientId: nat,
    sequence: nat,
    timestampMs: nat,
    intervalMs: nat,
    payloadLen: nat,
    flags: nat)

  predicate WellFormed(h: Header) {
    && h.sequence != 0
    && h.payloadLen <= MAX_PAYLOAD
    && h.flags < 4
    && (h.intervalMs == 0 || 100 <= h.intervalMs <= 600000)
  }

  // ----- The bytes on the wire -----

  /** Every field fits the bytes it is given. */
  predicate Fits(h: Header) {
    && h.clientId < U64_LIMIT && h.sequence < U64_LIMIT && h.timestampMs < U64_LIMIT
    && h.intervalMs < U32_LIMIT && h.payloadLen < 0x1_0000 && h.flags < 0x1_0000
  }

  function PackHeader(h: Header): (r: seq<Byte>)
    ensures |r| == HEADER_LEN
  {
    Pack(h.clientId, 8) + Pack(h.sequence, 8) + Pack(h.timestampMs, 8)
      + Pack(h.intervalMs, 4) + Pack(h.payloadLen, 2) + Pack(h.flags, 2)
  }

  function UnpackHeader(b: seq<Byte>): Header
    requires |b| >= HEADER_LEN
  {
    Header(Unpack(b[..8]), Unpack(b[8..16]), Unpack(b[16..24]), Unpack(b[24..28]), Unpack(b[28..30]), Unpack(b[30..32]))
  }

  /** The frame has the length its header says, and its payload opens under its own sequence number. */
  predicate Authentic(c: Record.Channel, bytes: seq<Byte>)
    requires |c.iv| == Nonce.IV_LEN && |bytes| >= HEADER_LEN
  {
    var h := UnpackHeader(bytes);
    && |bytes| == HEADER_LEN + h.payloadLen + Record.TAG_LEN
    && c.aead.unseal(c.key, Nonce.Build(c.iv, h.sequence), bytes[..HEADER_LEN], bytes[HEADER_LEN..]).Some?
  }

  /** A wire frame: too short to parse, or a header together with the AEAD verdict on the whole frame. */
  datatype Wire = Garbage | Beacon(header: Header, authentic: bool) {
    predicate Parses() {
      Beacon? && WellFormed(header)
    }
  }

  function Read(c: Record.Channel, bytes: seq<Byte>): Wire
    requires |c.iv| == Nonce.IV_LEN
  {
    if |bytes| < HEADER_LEN + Record.TAG_LEN then Garbage else Beacon(UnpackHeader(bytes), Authentic(c, bytes))
  }

  /** What a client sends. */
  function Sealed(c: Record.Channel, h: Header, payload: seq<Byte>): seq<Byte>
    requires |c.iv| == Nonce.IV_LEN
  {
    PackHeader(h) + c.aead.seal(c.key, Nonce.Build(c.iv, h.sequence), PackHeader(h), payload)
  }

  lemma {:induction false} Limits()
    ensures Limit(2) == 0x1_0000 && Limit(4) == U32_LIMIT && Limit(8) == U64_LIMIT
  {
    assert Limit(6) == 0x1_0000_0000_0000;
  }

  lemma {:induction false} UnpackPacked(h: Header, tail: seq<Byte>)
    requires Fits(h)
    ensures UnpackHeader(PackHeader(h) + tail) == h
  {
    hide Pack, Unpack, Limit;
    Limits();
    UnpackPack(h.clientId, 8);
    UnpackPack(h.sequence, 8);
    UnpackPack(h.timestampMs, 8);
    UnpackPack(h.intervalMs, 4);
    UnpackPack(h.payloadLen, 2);
    UnpackPack(h.flags, 2);
    var b := PackHeader(h) + tail;
    assert b[..8] == Pack(h.clientId, 8) && b[8..16] == Pack(h.sequence, 8);
    assert b[16..24] == Pack(h.timestampMs, 8) && b[24..28] == Pack(h.intervalMs, 4);
    assert b[28..30] == Pack(h.payloadLen, 2) && b[30..32] == Pack(h.flags, 2);
  }

  lemma {:induction false} PackUnpacked(b: seq<Byte>)
    requires |b| >= HEADER_LEN
    ensures Fits(UnpackHeader(b)) && PackHeader(UnpackHeader(b)) == b[..HEADER_LEN]
  {
    hide Pack, Unpack, Limit;
    Limits();
    PackUnpack(b[..8]);
    PackUnpack(b[8..16]);
    PackUnpack(b[16..24]);
    PackUnpack(b[24..28]);
    PackUnpack(b[28..30]);
    PackUnpack(b[30..32]);
    assert b[..HEADER_LEN] == b[..8] + b[8..16] + b[16..24] + b[24..28] + b[28..30] + b[30..32];
  }

  /** A beacon a client seals is read back with its header and as authentic. */
  lemma {:induction false} SealedReads(c: Record.Channel, h: Header, payload: seq<Byte>)
    requires c.Valid() && Fits(h) && h.payloadLen == |payload|
    ensures Read(c, Sealed(c, h, payload)) == Beacon(h, true)
  {
    hide PackHeader, UnpackHeader, Nonce.Build;
    var ct := c.aead.seal(c.key, Nonce.Build(c.iv, h.sequence), PackHeader(h), payload);
    var bytes := Sealed(c, h, payload);
    UnpackPacked(h, ct);
    assert bytes[..HEADER_LEN] == PackHeader(h) && bytes[HEADER_LEN..] == ct;
    assert |ct| == |payload| + Record.TAG_LEN;
  }

  /** Conversely only what was sealed for its header and sequence number is read as authentic. */
  lemma {:induction false} AuthenticWasSealed(c: Record.Channel, bytes: seq<Byte>)
    requires c.Valid() && |bytes| >= HEADER_LEN && Authentic(c, bytes)
    ensures exists payload :: bytes == Sealed(c, UnpackHeader(bytes), payload)
  {
    hide PackHeader, UnpackHeader, Nonce.Build;
    var h := UnpackHeader(bytes);
    PackUnpacked(bytes);
    var nonce, ct := Nonce.Build(c.iv, h.sequence), bytes[HEADER_LEN..];
    var payload := c.aead.unseal(c.key, nonce, bytes[..HEADER_LEN], ct).value;
    assert ct == c.aead.seal(c.key, nonce, bytes[..HEADER_LEN], payload);
    assert bytes == bytes[..HEADER_LEN] + ct;
    assert bytes == Sealed(c, h, payload);
  }

  function Distance(a: nat, b: nat): nat {
    if a > b then a - b else b - a
  }

  datatype BeaconResult = Accepted | AuthFailed | ReplayRejected | ClockSkew | Malformed

  /** The verdict on a frame, given the sequence numbers accepted from its client so far. */
  function Verdict(wire: Wire, log: seq<nat>, maxSkewMs: nat, nowWall: nat): BeaconResult {
    if !wire.Parses() then Malformed
    else if !Fresh(64 * REPLAY_WORDS, log, wire.header.sequence) then ReplayRejected
    else if !wire.authentic then AuthFailed
    else if Distance(wire.header.timestampMs, nowWall) > maxSkewMs then ClockSkew
    else Accepted
  }

  ghost predicate Distinct(log: seq<nat>) {
    forall i, j :: 0 <= i < j < |log| ==> log[i] != log[j]
  }

  class ClientState {
    var beaconsReceived: nat
    var replaysRejected: nat
    var authFailures: nat
    var skewRejections: nat
    var lastSeq: nat
    var lastSeenMonoMs: nat
    var lastSeenWallMs: nat
    var alive: bool
    const replay: ReplayGuard

    constructor ()
      ensures fresh(replay) && fresh(replay.bitmap) && Valid() && replay.log == [] && !alive
    {
      beaconsReceived, replaysRejected, authFailures, skewRejections := 0, 0, 0, 0;
      lastSeq, lastSeenMonoMs, lastSeenWallMs := 0, 0, 0;
      alive := false;
      replay := new ReplayGuard(REPLAY_WORDS);
    }

    /** Only accepted numbers reach the guard, so its log is the client's history of accepted beacons. */
    ghost predicate Valid()
      reads this, replay, replay.bitmap
    {
      && replay.Valid() && replay.words == REPLAY_WORDS
      && beaconsReceived == |replay.log|
      && Distinct(replay.log)
      && (replay.log != [] ==> lastSeq == replay.log[|replay.log| - 1])
    }

    /** The part of `on_beacon` that works on one client's state. */
    method Receive(wire: Wire, maxSkewMs: nat, nowWall: nat, nowMono: nat) returns (r: BeaconResult)
      requires Valid() && wire.Parses()
      modifies this, replay, replay.bitmap
      ensures Valid()
      ensures r == Verdict(wire, old(replay.log), maxSkewMs, nowWall)
      ensures replay.log == old(replay.log) + if r == Accepted then [wire.header.sequence] else []
    {
      var h := wire.header;
      if !replay.WouldAccept(h.sequence) {
        replaysRejected := replaysRejected + 1;
        return ReplayRejected;
      }
      if !wire.authentic {
        authFailures := authFailures + 1;
        return AuthFailed;
      }
      if Distance(h.timestampMs, nowWall) > maxSkewMs {
        skewRejections := skewRejections + 1;
        return ClockSkew;
      }
      Commit(h, nowMono);
      return Accepted;
    }

    method Commit(h: Header, nowMono: nat)
      requires Valid() && replay.WouldAccept(h.sequence)
      modifies this, replay, replay.bitmap
      ensures Valid() && replay.log == old(replay.log) + [h.sequence]
    {
      var committed := replay.CheckAndUpdate(h.sequence);
      // The source rejects here if the commit fails; after the peek it cannot.
      assert committed;
      beaconsReceived := beaconsReceived + 1;
      lastSeq := h.sequence;
      lastSeenMonoMs := nowMono;
      lastSeenWallMs := h.timestampMs;
      alive := true;
    }
  }

  class BeaconServer {
    const maxSkewMs: nat
    const livenessTimeoutMs: nat
    const channel: Record.Channel
    var clients: map<nat, ClientState>
    ghost var repr: set<object>

    ghost predicate Owns(c: ClientState)
      reads this
    {
      c in repr && c.replay in repr && c.replay.bitmap in repr
    }

    ghost predicate Valid()
      reads this, repr
    {
      && this !in repr && |channel.iv| == Nonce.IV_LEN
      && (forall id :: id in clients ==> Owns(clients[id]) && clients[id].Valid())
      && (forall i, j :: i in clients && j in clients && i != j ==>
            && clients[i] != clients[j]
            && clients[i].replay != clients[j].replay
            && clients[i].replay.bitmap != clients[j].replay.bitmap)
    }

    /** Sequence numbers accepted from a client, in order. */
    ghost function History(id: nat): seq<nat>
      requires Valid()
      reads this, repr
    {
      if id in clients then clients[id].replay.log else []
    }

    constructor (maxSkewMs: nat, livenessTimeoutMs: nat, channel: Record.Channel)
      requires |channel.iv| == Nonce.IV_LEN
      ensures Valid() && clients == map[] && fresh(repr) && this.channel == channel
    {
      this.channel := channel;
      this.maxSkewMs := maxSkewMs;
      this.livenessTimeoutMs := livenessTimeoutMs;
      clients := map[];
      repr := {};
    }

    /** `clients_[id]`: the entry is created on first use, before anything has been authenticated. */
    method Lookup(id: nat)
      requires Valid()
      modifies this
      ensures Valid() && fresh(repr - old(repr)) && id in clients
      ensures old(clients).Keys + {id} == clients.Keys
      ensures forall j :: j in old(clients) ==> clients[j] == old(clients)[j]
      ensures id !in old(clients) ==> clients[id].replay.log == []
    {
      hide ClientState.Valid;
      if id !in clients {
        var c := new ClientState();
        clients := clients[id := c];
        repr := repr + {c, c.replay, c.replay.bitmap};
      }
    }

    /** One client's step leaves every other client alone. */
    method ReceiveFor(id: nat, wire: Wire, nowWall: nat, nowMono: nat) returns (r: BeaconResult)
      requires Valid() && id in clients && wire.Parses()
      modifies repr
      ensures Valid()
      ensures r == Verdict(wire, old(History(id)), maxSkewMs, nowWall)
      ensures clients == old(clients) && repr == old(repr)
      ensures forall j :: History(j) ==
                old(History(j)) + if r == Accepted && j == id then [wire.header.sequence] else []
    {
      hide ClientState.Valid, Verdict;
      r := clients[id].Receive(wire, maxSkewMs, nowWall, nowMono);
      forall j | j in clients && j != id
        ensures clients[j].Valid()
      {
        assert old(clients[j].Valid());
      }
    }

    method OnBeacon(bytes: seq<Byte>, nowWall: nat, nowMono: nat) returns (r: BeaconResult)
      requires Valid()
      modifies this, repr
      ensures Valid() && fresh(repr - old(repr))
      ensures var wire := Read(channel, bytes);
              && (wire.Garbage? ==> r == Malformed)
              && (wire.Beacon? ==> r == Verdict(wire, old(History(wire.header.clientId)), maxSkewMs, nowWall))
              && (forall id :: History(id) ==
                    old(History(id)) + if r == Accepted && id == wire.header.clientId then [wire.header.sequence] else [])
    {
      hide UnpackHeader, Authentic, ClientState.Valid;
      if |bytes| < HEADER_LEN + Record.TAG_LEN {
        return Malformed;
      }
      var wire := Beacon(UnpackHeader(bytes), Authentic(channel, bytes));
      if !WellFormed(wire.header) {
        return Malformed;
      }
      Lookup(wire.header.clientId);
      assert forall id :: History(id) == old(History(id));
      r := ReceiveFor(wire.header.clientId, wire, nowWall, nowMono);
    }
  }
}
