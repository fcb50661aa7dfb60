/**
  Two multiplexers joined by two FIFO channels. Both peers and both channels move in any order;
  nobody resets a stream. Besides DATA frames, a peer may put on its channel any WINDOW, PING or
  PONG frame for a stream it knows: whoever reads a stream decides how much credit to hand back.
 */
module MuxProtocol {
  import opened Common
  import opened MapSums
  import opened Streams
  import opened MuxSteps

  /** One side: its multiplexer, the channel leaving it, and what its application has done. */
  datatype Peer = Peer(
    mux: Mux,
    out: seq<Frame>,
    accepted: map<nat, seq<Byte>>,
    read: map<nat, seq<Byte>>,
    granted: map<nat, nat>,
    finsSent: set<nat>)

  function BytesAt(m: map<nat, seq<Byte>>, id: nat): seq<Byte> {
    if id in m then m[id] else []
  }

  function CountAt(m: map<nat, nat>, id: nat): nat {
    if id in m then m[id] else 0
  }

  datatype Action =
    | Open(priority: Priority)
    | Send(id: nat, data: seq<Byte>, fin: bool)
    | Pop(id: nat)
    | Read(id: nat)
    | Inject(frame: Frame)
    | Deliver

  predicate Injectable(m: Mux, f: Frame) {
    && (f.kind.Window? || f.kind.Ping? || f.kind.Pong?)
    && (f.kind.Window? ==> |f.payload| >= 4)
    && f.id in m.streams
  }

  function DoSend(p: Peer, id: nat, data: seq<Byte>, fin: bool): Peer {
    var (m, ok) := SendData(p.mux, id, data, fin);
    p.(mux := m, accepted := if ok then p.accepted[id := BytesAt(p.accepted, id) + data] else p.accepted)
  }

  function DoPop(p: Peer, id: nat): Peer
    requires Schedulable(p.mux, id)
  {
    var (m, f) := PopOutbound(p.mux, id);
    p.(mux := m, out := p.out + [f], finsSent := p.finsSent + if f.HasFin() then {id} else {})
  }

  function DoRead(p: Peer, id: nat): Peer {
    var (m, bytes) := ReadInbound(p.mux, id);
    p.(mux := m, read := p.read[id := BytesAt(p.read, id) + bytes])
  }

  function DoInject(p: Peer, f: Frame): Peer
    requires Injectable(p.mux, f)
  {
    p.(out := p.out + [f],
       granted := if f.kind.Window? then p.granted[f.id := CountAt(p.granted, f.id) + WindowDelta(f.payload)]
                  else p.granted)
  }

  /** Peer `p` acts; `q` is its partner, whose channel leads to `p`. Impossible actions change nothing. */
  function Act(p: Peer, q: Peer, a: Action): (Peer, Peer) {
    match a
    case Open(priority) => (p.(mux := OpenStream(p.mux, priority).0), q)
    case Send(id, data, fin) => (DoSend(p, id, data, fin), q)
    case Pop(id) => (if Schedulable(p.mux, id) then DoPop(p, id) else p, q)
    case Read(id) => (DoRead(p, id), q)
    case Inject(f) => (if Injectable(p.mux, f) then DoInject(p, f) else p, q)
    case Deliver =>
      if q.out == [] then (p, q)
      else (p.(mux := OnFrame(p.mux, q.out[0]).0), q.(out := q.out[1..]))
  }

  datatype System = System(client: Peer, server: Peer)

  datatype Event = Event(byClient: bool, action: Action)

  function Init(window: nat): System {
    System(Peer(InitialMux(Client, window), [], map[], map[], map[], {}),
           Peer(InitialMux(Server, window), [], map[], map[], map[], {}))
  }

  function Next(sys: System, e: Event): System {
    if e.byClient then
      var (c, s) := Act(sys.client, sys.server, e.action);
      System(c, s)
    else
      var (s, c) := Act(sys.server, sys.client, e.action);
      System(c, s)
  }

  function Exec(window: nat, events: seq<Event>): System {
    if events == [] then Init(window)
    else Next(Exec(window, events[..|events| - 1]), events[|events| - 1])
  }

  // ----- What is on a channel -----

  /** The DATA frames of one stream, in channel order. */
  function DataFor(out: seq<Frame>, id: nat): seq<Frame> {
    if out == [] then []
    else (if out[0].kind.Data? && out[0].id == id then [out[0]] else []) + DataFor(out[1..], id)
  }

  function Payloads(frames: seq<Frame>): seq<Byte> {
    if frames == [] then [] else frames[0].payload + Payloads(frames[1..])
  }

  /** All DATA bytes on the channel, whatever their stream. */
  function DataBytes(out: seq<Frame>): nat {
    if out == [] then 0 else (if out[0].kind.Data? then |out[0].payload| else 0) + DataBytes(out[1..])
  }

  /** Credit for one stream that is still on the channel. */
  function CreditFor(out: seq<Frame>, id: nat): nat {
    if out == [] then 0
    else (if out[0].kind.Window? && out[0].id == id && |out[0].payload| >= 4 then WindowDelta(out[0].payload) else 0)
         + CreditFor(out[1..], id)
  }

  lemma {:induction false} ChannelAppend(out: seq<Frame>, f: Frame, id: nat)
    ensures DataFor(out + [f], id) == DataFor(out, id) + DataFor([f], id)
    ensures DataBytes(out + [f]) == DataBytes(out) + DataBytes([f])
    ensures CreditFor(out + [f], id) == CreditFor(out, id) + CreditFor([f], id)
  {
    if out != [] {
      ChannelAppend(out[1..], f, id);
      assert (out + [f])[1..] == out[1..] + [f];
    } else {
      assert out + [f] == [f];
    }
  }

  lemma {:induction false} PayloadsAppend(frames: seq<Frame>, f: Frame)
    ensures Payloads(frames + [f]) == Payloads(frames) + f.payload
  {
    if frames == [] {
    } else {
      PayloadsAppend(frames[1..], f);
      assert (frames + [f])[1..] == frames[1..] + [f];
    }
  }

  // ----- The invariant, one direction at a time: sender `s`, receiver `r` -----

  /** Bytes queued for sending, per stream. */
  function Queued(m: Mux): map<nat, nat> {
    map id | id in m.streams :: |Flat(m.streams[id].outbound)|
  }

  ghost predicate SessionInv(s: Peer, r: Peer) {
    && s.mux.session.sendCredit >= 0
    && r.mux.session.recvWindow >= DataBytes(s.out) + Total(Queued(s.mux)) + s.mux.session.sendCredit
  }

  /** One direction of one stream: everything between `SendData` at one end and `ReadInbound` at the other. */
  datatype Lane = Lane(
    outbound: seq<seq<Byte>>,
    canSend: bool,
    frames: seq<Frame>,
    inbound: seq<Byte>,
    canRecv: bool,
    recvWindow: int,
    credit: int)

  function LaneOf(s: Peer, r: Peer, id: nat): Lane {
    var sender, receiver := View(s.mux, id), View(r.mux, id);
    Lane(sender.outbound, sender.phase.CanSend(), DataFor(s.out, id),
         receiver.inbound, receiver.phase.CanRecv(), receiver.flow.recvWindow, s.mux.session.sendCredit)
  }

  /** The receiver has room for everything under way and for everything the session may still send. */
  predicate RoomInv(l: Lane) {
    l.recvWindow >= |Payloads(l.frames)| + |Flat(l.outbound)| + l.credit
  }

  /** A FIN is the last DATA frame of its stream, and its sender has nothing more to send. */
  predicate FinInv(l: Lane) {
    && (forall k :: 0 <= k < |l.frames| - 1 ==> !l.frames[k].HasFin())
    && (l.frames != [] && l.frames[|l.frames| - 1].HasFin() ==> l.outbound == [] && !l.canSend)
    && (!l.canRecv ==> l.frames == [] && l.outbound == [] && !l.canSend)
  }

  /** Bytes under way or buffered, oldest first. */
  function Transit(l: Lane): seq<Byte> {
    l.inbound + (Payloads(l.frames) + Flat(l.outbound))
  }

  /** Bytes accepted for sending at one side, laid out from the reader's hands back to the sender's queue. */
  predicate Conserved(s: Peer, r: Peer, id: nat) {
    BytesAt(s.accepted, id) == BytesAt(r.read, id) + Transit(LaneOf(s, r, id))
  }

  predicate StreamInv(s: Peer, r: Peer, id: nat) {
    && RoomInv(LaneOf(s, r, id)) && FinInv(LaneOf(s, r, id))
    && Conserved(s, r, id)
    && !View(s.mux, id).phase.Idle?
  }

  predicate Deliverable(m: Mux, f: Frame) {
    && f.id in m.streams
    && !f.kind.Reset?
    && (f.kind.Window? ==> |f.payload| >= 4)
  }

  /** Streams one side knows are known to, or may be created at, the other. */
  ghost predicate IdsInv(s: Peer, r: Peer) {
    && s.mux.role == r.mux.role.Peer()
    && !BelongsToPeer(s.mux.nextId, s.mux.role) && s.mux.nextId != ID_CONTROL
    && (forall id :: id in s.mux.streams ==> id != ID_CONTROL && (BelongsToPeer(id, r.mux.role) || id in r.mux.streams))
    && (forall k :: 0 <= k < |s.out| ==> Deliverable(s.mux, s.out[k]))
  }

  ghost predicate DirectionInv(s: Peer, r: Peer) {
    SessionInv(s, r) && IdsInv(s, r) && forall id: nat :: StreamInv(s, r, id)
  }

  ghost predicate Inv(sys: System) {
    DirectionInv(sys.client, sys.server) && DirectionInv(sys.server, sys.client)
  }

  lemma DirectionFacts(s: Peer, r: Peer, id: nat)
    requires DirectionInv(s, r)
    ensures SessionInv(s, r) && IdsInv(s, r) && StreamInv(s, r, id)
  {
  }

  // ----- Every action keeps both directions -----

  lemma QueuedUpdate(m: Mux, id: nat, s: Stream)
    ensures Total(Queued(m.(streams := m.streams[id := s]))) ==
            Total(Queued(m)) - |Flat(View(m, id).outbound)| + |Flat(s.outbound)|
  {
    TotalUpdate(Queued(m), id, |Flat(s.outbound)|);
    assert Queued(m.(streams := m.streams[id := s])) == Queued(m)[id := |Flat(s.outbound)|];
  }

  /** `SendData` queues a chunk, and closes the sending half if asked to. */
  lemma LaneSend(l: Lane, l': Lane, data: seq<Byte>, fin: bool)
    requires RoomInv(l) && FinInv(l) && l.canSend
    requires l' == l.(outbound := l'.outbound, canSend := !fin, credit := l.credit - |data|)
    requires l'.outbound == l.outbound + [data]
             || (data == [] && l'.outbound == l.outbound)
    ensures RoomInv(l') && FinInv(l') && Transit(l') == Transit(l) + data
  {
    FlatAppend(l.outbound, data);
    assert Flat(l'.outbound) == Flat(l.outbound) + data;
  }

  lemma LanePop(l: Lane, l': Lane, f: Frame)
    requires RoomInv(l) && FinInv(l) && l.outbound != []
    requires l' == l.(outbound := l.outbound[1..], frames := l.frames + [f])
    requires f.payload == l.outbound[0] && (f.HasFin() ==> l'.outbound == [] && !l.canSend)
    ensures RoomInv(l') && FinInv(l') && Transit(l') == Transit(l)
  {
    PayloadsAppend(l.frames, f);
  }

  lemma AppendAssoc(a: seq<Byte>, b: seq<Byte>, c: seq<Byte>)
    ensures (a + b) + c == a + (b + c)
  {
  }

  lemma ConcatAssoc(a: seq<Byte>, b: seq<Byte>, c: seq<Byte>, d: seq<Byte>)
    ensures (a + b) + (c + d) == a + ((b + c) + d)
  {
  }

  lemma FinInvTail(l: Lane, l': Lane)
    requires FinInv(l) && l.frames != []
    requires l'.outbound == l.outbound && l'.canSend == l.canSend
    requires l'.frames == l.frames[1..] && l'.canRecv == !l.frames[0].HasFin()
    ensures FinInv(l')
  {
    assert forall k :: 0 <= k < |l'.frames| ==> l'.frames[k] == l.frames[k + 1];
  }

  lemma LaneDeliver(l: Lane, l': Lane)
    requires RoomInv(l) && FinInv(l) && l.frames != []
    requires l' == l.(frames := l.frames[1..], inbound := l.inbound + l.frames[0].payload,
                      canRecv := !l.frames[0].HasFin(), recvWindow := l.recvWindow - |l.frames[0].payload|)
    ensures RoomInv(l') && FinInv(l') && Transit(l') == Transit(l)
  {
    FinInvTail(l, l');
    ConcatAssoc(l.inbound, l.frames[0].payload, Payloads(l'.frames), Flat(l.outbound));
  }

  lemma LaneRead(l: Lane, l': Lane)
    requires RoomInv(l) && FinInv(l)
    requires l' == l.(inbound := [], recvWindow := l'.recvWindow) && l'.recvWindow >= l.recvWindow
    ensures RoomInv(l') && FinInv(l') && Transit(l) == l.inbound + Transit(l')
  {
  }

  /** Sending on a stream leaves its other direction and all other streams alone. */
  lemma SendLanes(p: Peer, q: Peer, id: nat, data: seq<Byte>, fin: bool, p': Peer, j: nat)
    requires p' == DoSend(p, id, data, fin) && SendData(p.mux, id, data, fin).1 && !View(p.mux, j).phase.Idle?
    ensures var l, l' := LaneOf(p, q, j), LaneOf(p', q, j);
            && l'.credit == l.credit - |data|
            && (j != id ==> l' == l.(credit := l'.credit))
            && (j == id ==>
                  && l.canSend && l' == l.(outbound := l'.outbound, canSend := !fin, credit := l'.credit)
                  && (l'.outbound == l.outbound + [data] || (data == [] && l'.outbound == l.outbound)))
    ensures LaneOf(q, p', j) == LaneOf(q, p, j) && !View(p'.mux, j).phase.Idle?
    ensures BytesAt(p'.accepted, j) == BytesAt(p.accepted, j) + if j == id then data else []
  {
    FinClosesOneDirection(View(p.mux, j).phase);
  }

  lemma SendKeepsStream(p: Peer, q: Peer, id: nat, data: seq<Byte>, fin: bool, p': Peer, j: nat)
    requires p' == DoSend(p, id, data, fin) && SendData(p.mux, id, data, fin).1
    requires StreamInv(p, q, j) && StreamInv(q, p, j)
    ensures StreamInv(p', q, j) && StreamInv(q, p', j)
  {
    SendLanes(p, q, id, data, fin, p', j);
    if j == id {
      var l, l' := LaneOf(p, q, j), LaneOf(p', q, j);
      LaneSend(l, l', data, fin);
      AppendAssoc(BytesAt(q.read, j), Transit(l), data);
    }
  }

  lemma PopLanes(p: Peer, q: Peer, id: nat, p': Peer, j: nat)
    requires Schedulable(p.mux, id) && p' == DoPop(p, id)
    ensures LaneOf(q, p', j) == LaneOf(q, p, j) && View(p'.mux, j).phase == View(p.mux, j).phase
    ensures var l, f := LaneOf(p, q, j), PopOutbound(p.mux, id).1;
            LaneOf(p', q, j) == if j == id then l.(outbound := l.outbound[1..], frames := l.frames + [f]) else l
  {
    var f := PopOutbound(p.mux, id).1;
    ChannelAppend(p.out, f, j);
    assert DataFor([f], j) == if j == id then [f] else [];
  }

  lemma PopKeepsStream(p: Peer, q: Peer, id: nat, p': Peer, j: nat)
    requires Schedulable(p.mux, id) && p' == DoPop(p, id)
    requires StreamInv(p, q, j) && StreamInv(q, p, j)
    ensures StreamInv(p', q, j) && StreamInv(q, p', j)
  {
    PopLanes(p, q, id, p', j);
    if j == id {
      LanePop(LaneOf(p, q, j), LaneOf(p', q, j), PopOutbound(p.mux, id).1);
    }
  }

  lemma ReadLanes(p: Peer, q: Peer, id: nat, p': Peer, j: nat)
    requires p' == DoRead(p, id)
    ensures LaneOf(p', q, j) == LaneOf(p, q, j)
    ensures var l, l' := LaneOf(q, p, j), LaneOf(q, p', j);
            && l'.recvWindow >= l.recvWindow
            && l' == if j == id then l.(inbound := [], recvWindow := l'.recvWindow) else l
    ensures BytesAt(p'.read, j) == BytesAt(p.read, j) + if j == id then LaneOf(q, p, j).inbound else []
    ensures View(p'.mux, j).phase == View(p.mux, j).phase
  {
  }

  lemma ReadKeepsStream(p: Peer, q: Peer, id: nat, p': Peer, j: nat)
    requires p' == DoRead(p, id)
    requires StreamInv(p, q, j) && StreamInv(q, p, j)
    ensures StreamInv(p', q, j) && StreamInv(q, p', j)
  {
    ReadLanes(p, q, id, p', j);
    if j == id {
      var l, l' := LaneOf(q, p, j), LaneOf(q, p', j);
      LaneRead(l, l');
      AppendAssoc(BytesAt(p.read, j), l.inbound, Transit(l'));
    }
  }

  lemma InjectLanes(p: Peer, q: Peer, f: Frame, p': Peer, j: nat)
    requires Injectable(p.mux, f) && p' == DoInject(p, f)
    ensures LaneOf(p', q, j) == LaneOf(p, q, j) && LaneOf(q, p', j) == LaneOf(q, p, j)
  {
    ChannelAppend(p.out, f, j);
  }

  lemma OpenLanes(p: Peer, q: Peer, priority: Priority, p': Peer, j: nat)
    requires p' == p.(mux := OpenStream(p.mux, priority).0)
    ensures LaneOf(p', q, j) == LaneOf(p, q, j) && LaneOf(q, p', j) == LaneOf(q, p, j)
    ensures View(p'.mux, j).phase == View(p.mux, j).phase
  {
  }

  lemma AcceptedWhen(m: Mux, f: Frame)
    requires f.id != ID_CONTROL && (f.id in m.streams || BelongsToPeer(f.id, m.role))
    requires f.kind.Window? ==> |f.payload| >= 4
    requires f.kind.Data? ==> View(m, f.id).phase.CanRecv() && View(m, f.id).flow.recvWindow >= |f.payload|
    requires f.kind.Data? ==> m.session.recvWindow >= |f.payload|
    ensures OnFrame(m, f).1
  {
  }

  /** The heart of the matter: the frame at the head of a channel is always accepted. */
  lemma HeadIsAccepted(s: Peer, r: Peer)
    requires DirectionInv(s, r) && s.out != []
    ensures OnFrame(r.mux, s.out[0]).1
  {
    var f := s.out[0];
    assert Deliverable(s.mux, f);
    assert StreamInv(s, r, f.id);
    hide OnFrame, DirectionInv, Total;
    assert f.kind.Data? ==> DataFor(s.out, f.id)[0] == f && DataBytes(s.out) >= |f.payload|;
    AcceptedWhen(r.mux, f);
  }

  /** An inbound frame changes one record, and of the session only the receive window. */
  lemma FrameTouchesOne(m: Mux, f: Frame, j: nat)
    requires f.id != ID_CONTROL && OnFrame(m, f).1
    ensures var m' := OnFrame(m, f).0;
            && m'.session.sendCredit == m.session.sendCredit && m'.window == m.window
            && Receive(m.session, View(m, f.id), f).2
            && View(m', j) == if j == f.id then Receive(m.session, View(m, j), f).1 else View(m, j)
  {
  }

  /** What it does to that record. */
  lemma ReceiveEffect(session: Flow, s: Stream, f: Frame)
    requires Receive(session, s, f).2 && !f.kind.Reset? && !s.phase.Idle?
    ensures var t := Receive(session, s, f).1;
            && t.outbound == s.outbound && t.phase.CanSend() == s.phase.CanSend() && !t.phase.Idle?
            && (s.phase.Closed? ==> t.phase.Closed?)
            && if f.kind.Data? then
                 && t.inbound == s.inbound + f.payload && t.flow.recvWindow == s.flow.recvWindow - |f.payload|
                 && s.phase.CanRecv() && t.phase.CanRecv() == !f.HasFin()
               else t.inbound == s.inbound && t.flow.recvWindow == s.flow.recvWindow
                    && t.phase.CanRecv() == s.phase.CanRecv()
  {
    FinClosesOneDirection(s.phase);
  }

  /** An accepted DATA frame moves its payload from the channel to the buffer; other frames move nothing. */
  lemma DeliverLanes(p: Peer, q: Peer, p': Peer, q': Peer, j: nat)
    requires q.out != [] && !q.out[0].kind.Reset? && OnFrame(p.mux, q.out[0]).1 && !View(p.mux, j).phase.Idle?
    requires p' == p.(mux := OnFrame(p.mux, q.out[0]).0) && q' == q.(out := q.out[1..])
    requires q.out[0].id != ID_CONTROL
    ensures LaneOf(p', q', j) == LaneOf(p, q, j) && !View(p'.mux, j).phase.Idle?
    ensures View(p.mux, j).phase.Closed? ==> View(p'.mux, j).phase.Closed?
    ensures var l, l', f := LaneOf(q, p, j), LaneOf(q', p', j), q.out[0];
            if f.id == j && f.kind.Data? then
              && l.frames == [f] + l'.frames
              && l' == l.(frames := l.frames[1..], inbound := l.inbound + f.payload,
                          canRecv := !f.HasFin(), recvWindow := l.recvWindow - |f.payload|)
            else l' == l
  {
    var f := q.out[0];
    FrameTouchesOne(p.mux, f, j);
    hide OnFrame, Receive, View;
    if j == f.id {
      ReceiveEffect(p.mux.session, View(p.mux, j), f);
    }
    assert DataFor(q.out, j) == if f.kind.Data? && f.id == j then [f] + DataFor(q'.out, j) else DataFor(q'.out, j);
  }

  lemma DeliverKeepsStream(p: Peer, q: Peer, p': Peer, q': Peer, j: nat)
    requires q.out != [] && !q.out[0].kind.Reset? && OnFrame(p.mux, q.out[0]).1
    requires p' == p.(mux := OnFrame(p.mux, q.out[0]).0) && q' == q.(out := q.out[1..])
    requires q.out[0].id != ID_CONTROL
    requires StreamInv(p, q, j) && StreamInv(q, p, j)
    ensures StreamInv(p', q', j) && StreamInv(q', p', j)
  {
    DeliverLanes(p, q, p', q', j);
    if q.out[0].id == j && q.out[0].kind.Data? {
      LaneDeliver(LaneOf(q, p, j), LaneOf(q', p', j));
    }
  }

  lemma LocalKeepsStream(p: Peer, q: Peer, a: Action, p': Peer, j: nat)
    requires !a.Deliver? && p' == Act(p, q, a).0 && p' != p
    requires StreamInv(p, q, j) && StreamInv(q, p, j)
    ensures StreamInv(p', q, j) && StreamInv(q, p', j)
  {
    match a
    case Open(priority) => OpenLanes(p, q, priority, p', j);
    case Send(id, data, fin) => SendKeepsStream(p, q, id, data, fin, p', j);
    case Pop(id) => PopKeepsStream(p, q, id, p', j);
    case Read(id) => ReadKeepsStream(p, q, id, p', j);
    case Inject(f) => InjectLanes(p, q, f, p', j);
  }

  lemma ActKeepsStream(p: Peer, q: Peer, a: Action, j: nat)
    requires DirectionInv(p, q) && DirectionInv(q, p)
    ensures var (p', q') := Act(p, q, a); StreamInv(p', q', j) && StreamInv(q', p', j)
  {
    assert StreamInv(p, q, j) && StreamInv(q, p, j);
    if a.Deliver? && q.out != [] {
      HeadIsAccepted(q, p);
      assert Deliverable(q.mux, q.out[0]);
    }
    hide DirectionInv, StreamInv, OnFrame, DoSend, DoPop, DoRead, DoInject, OpenStream;
    var (p', q') := Act(p, q, a);
    if !a.Deliver? {
      if p' != p {
        LocalKeepsStream(p, q, a, p', j);
      }
    } else if q.out != [] {
      DeliverKeepsStream(p, q, p', q', j);
    }
  }

  /** The stream an action touches; the others keep their records. */
  function Touched(p: Peer, q: Peer, a: Action): nat {
    match a
    case Open(_) => p.mux.nextId
    case Inject(f) => f.id
    case Deliver => if q.out == [] then 0 else q.out[0].id
    case _ => a.id
  }

  lemma ActTouchesOne(p: Peer, q: Peer, a: Action)
    ensures var (p', q') := Act(p, q, a);
            && q'.mux == q.mux
            && (p'.mux.streams == p.mux.streams ||
                p'.mux.streams == p.mux.streams[Touched(p, q, a) := View(p'.mux, Touched(p, q, a))])
  {
  }

  /** Ids come from the allocator, from the application that knows the stream, or from the partner. */
  lemma ActIds(p: Peer, q: Peer, a: Action)
    requires a.Deliver? && q.out != [] ==> Deliverable(q.mux, q.out[0])
    ensures var (p', q') := Act(p, q, a);
            && p'.mux.role == p.mux.role
            && (p'.mux.nextId == p.mux.nextId || p'.mux.nextId == p.mux.nextId + 2)
            && (forall id :: id in p.mux.streams ==> id in p'.mux.streams)
            && (forall id :: id in p'.mux.streams && id !in p.mux.streams ==>
                  id == p.mux.nextId || (id in q.mux.streams && BelongsToPeer(id, p.mux.role)))
  {
  }

  lemma ActChannels(p: Peer, q: Peer, a: Action)
    ensures var (p', q') := Act(p, q, a);
            && (p'.out == p.out || exists f :: p'.out == p.out + [f] && Deliverable(p'.mux, f))
            && (q'.out == q.out || (q.out != [] && q'.out == q.out[1..]))
  {
  }

  lemma ActKeepsIds(p: Peer, q: Peer, a: Action)
    requires IdsInv(p, q) && IdsInv(q, p)
    ensures var (p', q') := Act(p, q, a); IdsInv(p', q') && IdsInv(q', p')
  {
    if a.Deliver? && q.out != [] {
      assert Deliverable(q.mux, q.out[0]);
    }
    ActTouchesOne(p, q, a);
    ActIds(p, q, a);
    ActChannels(p, q, a);
    hide Act;
    var (p', q') := Act(p, q, a);
    forall k | 0 <= k < |p'.out|
      ensures Deliverable(p'.mux, p'.out[k])
    {
      assert k < |p.out| ==> Deliverable(p.mux, p.out[k]);
    }
    forall k | 0 <= k < |q'.out|
      ensures Deliverable(q'.mux, q'.out[k])
    {
      assert q'.out != q.out ==> Deliverable(q.mux, q.out[k + 1]);
      assert q'.out == q.out ==> Deliverable(q.mux, q.out[k]);
    }
  }

  /** The bytes a peer has queued after an action, counting only the stream the action touches. */
  lemma ActQueued(p: Peer, q: Peer, a: Action)
    ensures var p', id := Act(p, q, a).0, Touched(p, q, a);
            Total(Queued(p'.mux)) ==
            Total(Queued(p.mux)) - |Flat(View(p.mux, id).outbound)| + |Flat(View(p'.mux, id).outbound)|
  {
    var p', id := Act(p, q, a).0, Touched(p, q, a);
    ActTouchesOne(p, q, a);
    if p'.mux.streams == p.mux.streams {
      assert Queued(p'.mux) == Queued(p.mux);
      assert View(p'.mux, id).outbound == View(p.mux, id).outbound;
    } else {
      QueuedUpdate(p.mux, id, View(p'.mux, id));
      assert Queued(p'.mux) == Queued(p.mux.(streams := p.mux.streams[id := View(p'.mux, id)]));
    }
  }

  lemma SendQueues(m: Mux, id: nat, data: seq<Byte>, fin: bool)
    ensures var (m', ok) := SendData(m, id, data, fin);
            var n := if ok then |data| else 0;
            && |Flat(View(m', id).outbound)| == |Flat(View(m, id).outbound)| + n
            && m'.session == m.session.(sendCredit := m.session.sendCredit - n)
            && (n > 0 ==> n <= m.session.sendCredit)
  {
    FlatAppend(View(m, id).outbound, data);
  }

  /** Whatever leaves the session credit is queued, and whatever leaves a queue is on the channel. */
  lemma ActKeepsSessionOut(p: Peer, q: Peer, a: Action)
    requires SessionInv(p, q) && !a.Deliver?
    ensures SessionInv(Act(p, q, a).0, q)
  {
    var p' := Act(p, q, a).0;
    var id := Touched(p, q, a);
    ActQueued(p, q, a);
    var out, out' := View(p.mux, id).outbound, View(p'.mux, id).outbound;
    match a
    case Send(_, data, fin) =>
      SendQueues(p.mux, id, data, fin);
    case Pop(_) =>
      if Schedulable(p.mux, id) {
        var f := PopOutbound(p.mux, id).1;
        ChannelAppend(p.out, f, id);
        assert DataBytes([f]) == |f.payload|;
      }
    case Inject(f) => ChannelAppend(p.out, f, id);
    case _ =>
  }

  /** A frame that is accepted is charged to the session exactly if it is DATA. */
  lemma AcceptedFrameCharge(m: Mux, f: Frame)
    requires f.id != ID_CONTROL && OnFrame(m, f).1
    ensures var m' := OnFrame(m, f).0;
            && m'.session.sendCredit == m.session.sendCredit
            && m'.session.recvWindow == m.session.recvWindow - DataBytes([f])
            && View(m', f.id).outbound == View(m, f.id).outbound
  {
  }

  lemma DeliverKeepsSession(p: Peer, q: Peer)
    requires SessionInv(p, q) && SessionInv(q, p) && q.out != []
    requires q.out[0].id != ID_CONTROL && OnFrame(p.mux, q.out[0]).1
    ensures var (p', q') := Act(p, q, Deliver); SessionInv(p', q') && SessionInv(q', p')
  {
    AcceptedFrameCharge(p.mux, q.out[0]);
    ActQueued(p, q, Deliver);
    assert DataBytes(q.out) == DataBytes([q.out[0]]) + DataBytes(q.out[1..]);
  }

  lemma ActKeepsSession(p: Peer, q: Peer, a: Action)
    requires DirectionInv(p, q) && DirectionInv(q, p)
    ensures var (p', q') := Act(p, q, a); SessionInv(p', q') && SessionInv(q', p')
  {
    DirectionFacts(p, q, 0);
    DirectionFacts(q, p, 0);
    if !a.Deliver? {
      hide DirectionInv, StreamInv, IdsInv;
      ActKeepsSessionOut(p, q, a);
    } else if q.out != [] {
      HeadIsAccepted(q, p);
      assert Deliverable(q.mux, q.out[0]);
      hide DirectionInv, StreamInv, IdsInv, SessionInv, OnFrame;
      DeliverKeepsSession(p, q);
    }
  }

  lemma ActKeeps(p: Peer, q: Peer, a: Action)
    requires DirectionInv(p, q) && DirectionInv(q, p)
    ensures var (p', q') := Act(p, q, a); DirectionInv(p', q') && DirectionInv(q', p')
  {
    var (p', q') := Act(p, q, a);
    ActKeepsSession(p, q, a);
    ActKeepsIds(p, q, a);
    forall j: nat
      ensures StreamInv(p', q', j) && StreamInv(q', p', j)
    {
      ActKeepsStream(p, q, a, j);
    }
  }

  lemma {:induction false} RunsKeepInv(window: nat, events: seq<Event>)
    ensures Inv(Exec(window, events))
  {
    if events == [] {
      var sys := Init(window);
      assert Queued(sys.client.mux) == map[] == Queued(sys.server.mux);
      forall id: nat
        ensures StreamInv(sys.client, sys.server, id) && StreamInv(sys.server, sys.client, id)
      {
      }
    } else {
      var before, e := Exec(window, events[..|events| - 1]), events[|events| - 1];
      RunsKeepInv(window, events[..|events| - 1]);
      if e.byClient {
        ActKeeps(before.client, before.server, e.action);
      } else {
        ActKeeps(before.server, before.client, e.action);
      }
    }
  }

  // ----- Theorems over every run -----

  /**
    In every run, whatever the two sides do and whatever credit they hand out, a frame that reaches
    the head of a channel is accepted by the peer it is delivered to.
   */
  lemma {:induction false} EveryDeliveryIsAccepted(window: nat, events: seq<Event>)
    ensures var sys := Exec(window, events);
            && (sys.client.out != [] ==> OnFrame(sys.server.mux, sys.client.out[0]).1)
            && (sys.server.out != [] ==> OnFrame(sys.client.mux, sys.server.out[0]).1)
  {
    RunsKeepInv(window, events);
    var sys := Exec(window, events);
    if sys.client.out != [] {
      HeadIsAccepted(sys.client, sys.server);
    }
    if sys.server.out != [] {
      HeadIsAccepted(sys.server, sys.client);
    }
  }

  /** In every run no byte of any stream is lost, duplicated, reordered or moved to another stream. */
  lemma {:induction false} BytesAreConserved(window: nat, events: seq<Event>, id: nat)
    ensures var sys := Exec(window, events);
            Conserved(sys.client, sys.server, id) && Conserved(sys.server, sys.client, id)
  {
    RunsKeepInv(window, events);
    var sys := Exec(window, events);
    assert StreamInv(sys.client, sys.server, id) && StreamInv(sys.server, sys.client, id);
  }

  /** Nothing of the stream is left in the sender's queue, on the channel or in the receiver's buffer. */
  predicate Drained(s: Peer, r: Peer, id: nat) {
    View(s.mux, id).outbound == [] && DataFor(s.out, id) == [] && View(r.mux, id).inbound == []
  }

  /** When a direction of a stream has drained, the reader has exactly what the sender submitted. */
  lemma {:induction false} DrainedMeansDelivered(window: nat, events: seq<Event>, id: nat)
    ensures var sys := Exec(window, events);
            && (Drained(sys.client, sys.server, id) ==>
                  BytesAt(sys.server.read, id) == BytesAt(sys.client.accepted, id))
            && (Drained(sys.server, sys.client, id) ==>
                  BytesAt(sys.client.read, id) == BytesAt(sys.server.accepted, id))
  {
    BytesAreConserved(window, events, id);
  }

  // ----- Stream credit -----

  /** Credit handed back for a stream never exceeds the bytes read from it. */
  predicate Paced(p: Peer, a: Action) {
    a.Inject? && a.frame.kind.Window? && |a.frame.payload| >= 4 ==>
      CountAt(p.granted, a.frame.id) + WindowDelta(a.frame.payload) <= |BytesAt(p.read, a.frame.id)|
  }

  predicate AllPaced(window: nat, events: seq<Event>) {
    events == [] ||
    var before, e := Exec(window, events[..|events| - 1]), events[|events| - 1];
    AllPaced(window, events[..|events| - 1]) && Paced(if e.byClient then before.client else before.server, e.action)
  }

  predicate CreditInv(s: Peer, r: Peer, id: nat) {
    && View(s.mux, id).flow.sendCredit + |BytesAt(s.accepted, id)| + CreditFor(r.out, id) ==
       s.mux.window + CountAt(r.granted, id)
    && CountAt(r.granted, id) <= |BytesAt(r.read, id)|
    && s.mux.window <= MAX_WINDOW
  }

  /** Read bytes are among the accepted ones, so outstanding credit stays within the initial window. */
  lemma {:induction false} CreditStaysBounded(s: Peer, r: Peer, id: nat)
    requires StreamInv(s, r, id) && CreditInv(s, r, id)
    ensures View(s.mux, id).flow.sendCredit + CreditFor(r.out, id) <= s.mux.window
  {
    assert |BytesAt(s.accepted, id)| == |BytesAt(r.read, id)| + |Transit(LaneOf(s, r, id))|;
  }

  /** Only a WINDOW frame of that stream raises a stream's send credit. */
  lemma {:induction false} FrameCredit(m: Mux, f: Frame, j: nat)
    requires f.id != ID_CONTROL && (f.id in m.streams || BelongsToPeer(f.id, m.role)) && !f.kind.Reset?
    requires f.kind.Window? ==> |f.payload| >= 4
    requires View(m, j).flow.sendCredit + CreditFor([f], j) <= MAX_WINDOW
    ensures var m' := OnFrame(m, f).0;
            View(m', j).flow.sendCredit == View(m, j).flow.sendCredit + CreditFor([f], j) && m'.window == m.window
  {
  }

  lemma DeliverKeepsCredit(p: Peer, q: Peer, p': Peer, q': Peer, j: nat)
    requires IdsInv(q, p) && q.out != []
    requires p' == p.(mux := OnFrame(p.mux, q.out[0]).0) && q' == q.(out := q.out[1..])
    requires StreamInv(p, q, j) && CreditInv(p, q, j) && CreditInv(q, p, j)
    ensures CreditInv(p', q', j) && CreditInv(q', p', j)
  {
    assert Deliverable(q.mux, q.out[0]);
    hide IdsInv, StreamInv, OnFrame;
    CreditStaysBounded(p, q, j);
    assert CreditFor(q.out, j) == CreditFor([q.out[0]], j) + CreditFor(q'.out, j);
    FrameCredit(p.mux, q.out[0], j);
  }

  lemma FrameKeepsWindow(m: Mux, f: Frame)
    ensures OnFrame(m, f).0.window == m.window
  {
  }

  lemma OpenKeepsCredit(p: Peer, q: Peer, priority: Priority, p': Peer, j: nat)
    requires p' == p.(mux := OpenStream(p.mux, priority).0)
    requires CreditInv(p, q, j) && CreditInv(q, p, j)
    ensures CreditInv(p', q, j) && CreditInv(q, p', j) && p'.mux.window == p.mux.window
  {
  }

  lemma SendKeepsCredit(p: Peer, q: Peer, id: nat, data: seq<Byte>, fin: bool, p': Peer, j: nat)
    requires p' == DoSend(p, id, data, fin)
    requires CreditInv(p, q, j) && CreditInv(q, p, j)
    ensures CreditInv(p', q, j) && CreditInv(q, p', j) && p'.mux.window == p.mux.window
  {
  }

  lemma PopKeepsCredit(p: Peer, q: Peer, id: nat, p': Peer, j: nat)
    requires Schedulable(p.mux, id) && p' == DoPop(p, id)
    requires CreditInv(p, q, j) && CreditInv(q, p, j)
    ensures CreditInv(p', q, j) && CreditInv(q, p', j) && p'.mux.window == p.mux.window
  {
    ChannelAppend(p.out, PopOutbound(p.mux, id).1, j);
  }

  lemma ReadKeepsCredit(p: Peer, q: Peer, id: nat, p': Peer, j: nat)
    requires p' == DoRead(p, id)
    requires CreditInv(p, q, j) && CreditInv(q, p, j)
    ensures CreditInv(p', q, j) && CreditInv(q, p', j) && p'.mux.window == p.mux.window
  {
  }

  lemma InjectKeepsCredit(p: Peer, q: Peer, f: Frame, p': Peer, j: nat)
    requires Injectable(p.mux, f) && p' == DoInject(p, f) && Paced(p, Inject(f))
    requires CreditInv(p, q, j) && CreditInv(q, p, j)
    ensures CreditInv(p', q, j) && CreditInv(q, p', j) && p'.mux.window == p.mux.window
  {
    ChannelAppend(p.out, f, j);
  }

  lemma LocalKeepsCredit(p: Peer, q: Peer, a: Action, p': Peer, j: nat)
    requires !a.Deliver? && p' == Act(p, q, a).0 && p' != p && Paced(p, a)
    requires CreditInv(p, q, j) && CreditInv(q, p, j)
    ensures CreditInv(p', q, j) && CreditInv(q, p', j) && p'.mux.window == p.mux.window
  {
    match a
    case Open(priority) => OpenKeepsCredit(p, q, priority, p', j);
    case Send(id, data, fin) => SendKeepsCredit(p, q, id, data, fin, p', j);
    case Pop(id) => PopKeepsCredit(p, q, id, p', j);
    case Read(id) => ReadKeepsCredit(p, q, id, p', j);
    case Inject(f) => InjectKeepsCredit(p, q, f, p', j);
  }

  lemma ActKeepsCredit(p: Peer, q: Peer, a: Action, j: nat)
    requires DirectionInv(p, q) && DirectionInv(q, p) && Paced(p, a)
    requires CreditInv(p, q, j) && CreditInv(q, p, j)
    ensures var (p', q') := Act(p, q, a);
            && CreditInv(p', q', j) && CreditInv(q', p', j)
            && p'.mux.window == p.mux.window && q'.mux.window == q.mux.window
  {
    hide DirectionInv, IdsInv, StreamInv, CreditInv, Paced, OnFrame;
    hide Schedulable, Injectable, DoSend, DoPop, DoRead, DoInject, OpenStream;
    DirectionFacts(p, q, j);
    DirectionFacts(q, p, j);
    var (p', q') := Act(p, q, a);
    if !a.Deliver? {
      if p' != p {
        LocalKeepsCredit(p, q, a, p', j);
      }
    } else if q.out != [] {
      FrameKeepsWindow(p.mux, q.out[0]);
      DeliverKeepsCredit(p, q, p', q', j);
    }
  }

  ghost predicate BothCredits(sys: System, window: nat, id: nat) {
    && CreditInv(sys.client, sys.server, id) && CreditInv(sys.server, sys.client, id)
    && sys.client.mux.window == sys.server.mux.window == window
  }

  lemma NextKeepsCredit(sys: System, e: Event, window: nat, id: nat)
    requires Inv(sys) && BothCredits(sys, window, id)
    requires Paced(if e.byClient then sys.client else sys.server, e.action)
    ensures BothCredits(Next(sys, e), window, id)
  {
    if e.byClient {
      ActKeepsCredit(sys.client, sys.server, e.action, id);
    } else {
      ActKeepsCredit(sys.server, sys.client, e.action, id);
    }
  }

  lemma {:induction false} RunsKeepCredit(window: nat, events: seq<Event>, id: nat)
    requires window <= MAX_WINDOW && AllPaced(window, events)
    ensures BothCredits(Exec(window, events), window, id)
  {
    if events == [] {
    } else {
      RunsKeepCredit(window, events[..|events| - 1], id);
      RunsKeepInv(window, events[..|events| - 1]);
      NextKeepsCredit(Exec(window, events[..|events| - 1]), events[|events| - 1], window, id);
    }
  }

  /** The initial window of a stream, split over everywhere a byte or its credit can be. */
  ghost predicate WindowAccounted(s: Peer, r: Peer, id: nat, window: nat) {
    View(s.mux, id).flow.sendCredit
      + |Flat(View(s.mux, id).outbound)| + |Payloads(DataFor(s.out, id))| + |View(r.mux, id).inbound|
      + (|BytesAt(r.read, id)| - CountAt(r.granted, id)) + CreditFor(r.out, id) == window
  }

  /** With paced grants the credit loop of every stream is closed: nothing leaks and nothing is invented. */
  lemma {:induction false} CreditIsConserved(window: nat, events: seq<Event>, id: nat)
    requires window <= MAX_WINDOW && AllPaced(window, events)
    ensures var sys := Exec(window, events);
            WindowAccounted(sys.client, sys.server, id, window) && WindowAccounted(sys.server, sys.client, id, window)
  {
    RunsKeepCredit(window, events, id);
    BytesAreConserved(window, events, id);
  }

  // ----- Closing -----

  /** A FIN this direction has emitted is on the channel or has been received. */
  predicate FinUnderWay(l: Lane) {
    !l.canRecv || (l.frames != [] && l.frames[|l.frames| - 1].HasFin())
  }

  /** A sender that is done without having emitted a FIN was closed by the peer's FIN first. */
  predicate CloseInv(s: Peer, r: Peer, id: nat) {
    var l := LaneOf(s, r, id);
    && (id in s.finsSent <==> FinUnderWay(l))
    && (!l.canSend && l.outbound == [] && !FinUnderWay(l) ==> View(s.mux, id).phase.Closed?)
  }

  lemma SendKeepsClose(p: Peer, q: Peer, id: nat, data: seq<Byte>, fin: bool, p': Peer, j: nat)
    requires p' == DoSend(p, id, data, fin) && SendData(p.mux, id, data, fin).1 && !View(p.mux, j).phase.Idle?
    requires CloseInv(p, q, j) && CloseInv(q, p, j)
    ensures CloseInv(p', q, j) && CloseInv(q, p', j)
  {
    SendLanes(p, q, id, data, fin, p', j);
  }

  lemma PopKeepsClose(p: Peer, q: Peer, id: nat, p': Peer, j: nat)
    requires Schedulable(p.mux, id) && p' == DoPop(p, id) && !View(p.mux, j).phase.Idle?
    requires FinInv(LaneOf(p, q, j)) && FinInv(LaneOf(q, p, j))
    requires CloseInv(p, q, j) && CloseInv(q, p, j)
    ensures CloseInv(p', q, j) && CloseInv(q, p', j)
  {
    PopLanes(p, q, id, p', j);
  }

  lemma DeliverKeepsClose(p: Peer, q: Peer, p': Peer, q': Peer, j: nat)
    requires q.out != [] && !q.out[0].kind.Reset? && OnFrame(p.mux, q.out[0]).1 && !View(p.mux, j).phase.Idle?
    requires p' == p.(mux := OnFrame(p.mux, q.out[0]).0) && q' == q.(out := q.out[1..])
    requires q.out[0].id != ID_CONTROL
    requires FinInv(LaneOf(p, q, j)) && FinInv(LaneOf(q, p, j))
    requires CloseInv(p, q, j) && CloseInv(q, p, j)
    ensures CloseInv(p', q', j) && CloseInv(q', p', j)
  {
    hide OnFrame;
    DeliverLanes(p, q, p', q', j);
    var frames := LaneOf(q, p, j).frames;
    if q.out[0].id == j && q.out[0].kind.Data? {
      assert frames[0] == q.out[0];
      assert |frames| > 1 ==> frames[1..][|frames| - 2] == frames[|frames| - 1];
    }
  }

  lemma LocalKeepsClose(p: Peer, q: Peer, a: Action, p': Peer, j: nat)
    requires !a.Deliver? && p' == Act(p, q, a).0 && p' != p
    requires FinInv(LaneOf(p, q, j)) && FinInv(LaneOf(q, p, j)) && !View(p.mux, j).phase.Idle?
    requires CloseInv(p, q, j) && CloseInv(q, p, j)
    ensures CloseInv(p', q, j) && CloseInv(q, p', j)
  {
    match a
    case Open(priority) => OpenLanes(p, q, priority, p', j);
    case Send(id, data, fin) => SendKeepsClose(p, q, id, data, fin, p', j);
    case Pop(id) => PopKeepsClose(p, q, id, p', j);
    case Read(id) => ReadLanes(p, q, id, p', j);
    case Inject(f) => InjectLanes(p, q, f, p', j);
  }

  lemma ActKeepsClose(p: Peer, q: Peer, a: Action, j: nat)
    requires DirectionInv(p, q) && DirectionInv(q, p)
    requires CloseInv(p, q, j) && CloseInv(q, p, j)
    ensures var (p', q') := Act(p, q, a); CloseInv(p', q', j) && CloseInv(q', p', j)
  {
    var (p', q') := Act(p, q, a);
    assert StreamInv(p, q, j) && StreamInv(q, p, j);
    if !a.Deliver? {
      if p' != p {
        LocalKeepsClose(p, q, a, p', j);
      }
    } else if q.out != [] {
      HeadIsAccepted(q, p);
      assert Deliverable(q.mux, q.out[0]);
      DeliverKeepsClose(p, q, p', q', j);
    }
  }

  ghost predicate BothClose(sys: System, id: nat) {
    CloseInv(sys.client, sys.server, id) && CloseInv(sys.server, sys.client, id)
  }

  lemma {:induction false} RunsKeepClose(window: nat, events: seq<Event>, id: nat)
    ensures BothClose(Exec(window, events), id)
  {
    if events == [] {
    } else {
      var before, e := Exec(window, events[..|events| - 1]), events[|events| - 1];
      RunsKeepClose(window, events[..|events| - 1], id);
      RunsKeepInv(window, events[..|events| - 1]);
      if e.byClient {
        ActKeepsClose(before.client, before.server, e.action, id);
      } else {
        ActKeepsClose(before.server, before.client, e.action, id);
      }
    }
  }

  /** Both applications have closed the stream and nothing of it is left in a queue or on a channel. */
  predicate Settled(sys: System, id: nat) {
    && !View(sys.client.mux, id).phase.CanSend() && View(sys.client.mux, id).outbound == []
    && !View(sys.server.mux, id).phase.CanSend() && View(sys.server.mux, id).outbound == []
    && DataFor(sys.client.out, id) == [] && DataFor(sys.server.out, id) == []
  }

  /** A settled stream is closed on at least one side, and on a given side exactly if the other emitted its FIN. */
  lemma {:induction false} SettledStreamPhases(window: nat, events: seq<Event>, id: nat)
    requires Settled(Exec(window, events), id)
    ensures var sys := Exec(window, events);
            var c, s := View(sys.client.mux, id).phase, View(sys.server.mux, id).phase;
            && (c.Closed? || s.Closed?)
            && (c.Closed? <==> id in sys.server.finsSent)
            && (s.Closed? <==> id in sys.client.finsSent)
  {
    RunsKeepClose(window, events, id);
    RunsKeepInv(window, events);
    var sys := Exec(window, events);
    assert StreamInv(sys.client, sys.server, id) && StreamInv(sys.server, sys.client, id);
  }

  lemma {:induction false} ExecAppend(window: nat, events: seq<Event>, e: Event)
    ensures Exec(window, events + [e]) == Next(Exec(window, events), e)
  {
    assert (events + [e])[..|events|] == events;
  }

  /** A peer that knows stream 1 only, with empty buffers. */
  function Holding(role: Role, window: nat, nextId: nat, phase: Phase, queue: seq<seq<Byte>>, fin: bool): Mux {
    Mux(role, window, nextId, Flow(window, window),
        map[1 := Stream(phase, Flow(window, window), 2, queue, [], fin)])
  }

  lemma HoldingSendFin(role: Role, window: nat, nextId: nat, phase: Phase, fin: bool)
    requires phase.CanSend()
    ensures SendData(Holding(role, window, nextId, phase, [], fin), 1, [], true) ==
            (Holding(role, window, nextId, phase.OnSentFin(), [[]], fin), true)
  {
    var m := Holding(role, window, nextId, phase, [], fin);
    var s := m.streams[1].(phase := phase.OnSentFin(), outbound := [[]]);
    assert m.streams[1 := s] == map[1 := s];
  }

  lemma HoldingPop(role: Role, window: nat, nextId: nat, phase: Phase, fin: bool)
    ensures var m := Holding(role, window, nextId, phase, [[]], fin);
            && Schedulable(m, 1)
            && PopOutbound(m, 1) == (Holding(role, window, nextId, phase, [], fin),
                                     Frame(Data, if phase.HalfClosedLocal? then 1 else 0, 1, []))
  {
    var m := Holding(role, window, nextId, phase, [[]], fin);
    assert m.streams.Keys == {1} && Schedulable(m, 1);
    var s := m.streams[1].(outbound := []);
    assert m.streams[1].outbound[1..] == [];
    assert m.streams[1 := s] == map[1 := s] == Holding(role, window, nextId, phase, [], fin).streams;
  }

  function ClientCloses(): seq<Event> {
    [Event(true, Action.Open(2))] + [Event(true, Send(1, [], true))] + [Event(true, Pop(1))] + [Event(false, Deliver)]
  }

  /** One side that knows stream 1 only and whose application has sent no bytes. */
  function Bare(mux: Mux, out: seq<Frame>, closed: bool, fins: set<nat>): Peer {
    Peer(mux, out, if closed then map[1 := []] else map[], map[], map[], fins)
  }

  lemma OpenFirst(window: nat)
    ensures Next(Init(window), Event(true, Action.Open(2))) ==
            System(Bare(Holding(Client, window, 3, Phase.Open, [], false), [], false, {}), Init(window).server)
  {
    assert OpenStream(InitialMux(Client, window), 2).0 == Holding(Client, window, 3, Phase.Open, [], false);
  }

  /** A side that holds stream 1 closes it. */
  lemma SideSends(p: Peer, q: Peer, role: Role, window: nat, nextId: nat, phase: Phase, fin: bool, fins: set<nat>)
    requires p == Bare(Holding(role, window, nextId, phase, [], fin), [], false, fins) && phase.CanSend()
    ensures Act(p, q, Send(1, [], true)) ==
            (Bare(Holding(role, window, nextId, phase.OnSentFin(), [[]], fin), [], true, fins), q)
  {
    HoldingSendFin(role, window, nextId, phase, fin);
    hide SendData, Holding;
    assert p.accepted[1 := []] == map[1 := []];
  }

  lemma SidePops(p: Peer, q: Peer, role: Role, window: nat, nextId: nat, phase: Phase, fin: bool, fins: set<nat>)
    requires p == Bare(Holding(role, window, nextId, phase, [[]], fin), [], true, fins)
    ensures var flag := if phase.HalfClosedLocal? then 1 else 0;
            Act(p, q, Pop(1)) ==
            (Bare(Holding(role, window, nextId, phase, [], fin), [Frame(Data, flag, 1, [])], true,
                  fins + if flag == 1 then {1} else {}), q)
  {
    HoldingPop(role, window, nextId, phase, fin);
    hide PopOutbound, Schedulable, Holding;
    var f := PopOutbound(p.mux, 1).1;
    assert p.out + [f] == [f];
    assert f.HasFin() <==> phase.HalfClosedLocal?;
  }

  lemma FirstFinArrives(window: nat)
    ensures OnFrame(InitialMux(Server, window), Frame(Data, 1, 1, [])).0 ==
            Holding(Server, window, 2, HalfClosedRemote, [], true)
  {
    var m, f := InitialMux(Server, window), Frame(Data, 1, 1, []);
    var s := Stream(HalfClosedRemote, Flow(window, window), 2, [], [], true);
    assert View(m, 1).inbound + f.payload == [];
    assert Receive(m.session, View(m, 1), f) == (m.session, s, true);
    assert m.streams[1 := s] == map[1 := s];
  }

  lemma {:induction false} ClientClosesState(window: nat)
    ensures Exec(window, ClientCloses()) ==
            System(Bare(Holding(Client, window, 3, HalfClosedLocal, [], false), [], true, {1}),
                   Bare(Holding(Server, window, 2, HalfClosedRemote, [], true), [], false, {}))
  {
    hide Exec, OnFrame, Holding, Schedulable, SendData, PopOutbound, OpenStream;
    var open, send := Event(true, Action.Open(2)), Event(true, Send(1, [], true));
    var pop, deliver := Event(true, Pop(1)), Event(false, Deliver);
    var start := Init(window);
    ExecStarts(window);
    assert [] + [open] == [open];
    ExecAppend(window, [], open);
    ExecAppend(window, [open], send);
    ExecAppend(window, [open] + [send], pop);
    ExecAppend(window, [open] + [send] + [pop], deliver);
    OpenFirst(window);
    var s1 := Next(start, open);
    SideSends(s1.client, s1.server, Client, window, 3, Phase.Open, false, {});
    var s2 := Next(s1, send);
    SidePops(s2.client, s2.server, Client, window, 3, HalfClosedLocal, false, {});
    FirstFinArrives(window);
  }

  lemma {:induction false} ExecStarts(window: nat)
    ensures Exec(window, []) == Init(window)
  {
  }

  function ServerCloses(): seq<Event> {
    ClientCloses() + [Event(false, Send(1, [], true))] + [Event(false, Pop(1))] + [Event(true, Deliver)]
  }

  lemma EmptyDataChangesNothing(window: nat)
    ensures var m := Holding(Client, window, 3, HalfClosedLocal, [], false); OnFrame(m, Frame(Data, 0, 1, [])).0 == m
  {
    var m, f := Holding(Client, window, 3, HalfClosedLocal, [], false), Frame(Data, 0, 1, []);
    assert m.streams[1].inbound + f.payload == [];
    assert Receive(m.session, View(m, 1), f) == (m.session, m.streams[1], true);
    assert m.streams[1 := m.streams[1]] == m.streams;
  }

  lemma {:induction false} ServerClosesState(window: nat)
    ensures Exec(window, ServerCloses()) ==
            System(Bare(Holding(Client, window, 3, HalfClosedLocal, [], false), [], true, {1}),
                   Bare(Holding(Server, window, 2, Closed, [], true), [], true, {}))
  {
    hide Exec, OnFrame, Holding, Schedulable, SendData, PopOutbound;
    var send, pop, deliver := Event(false, Send(1, [], true)), Event(false, Pop(1)), Event(true, Deliver);
    ClientClosesState(window);
    ExecAppend(window, ClientCloses(), send);
    ExecAppend(window, ClientCloses() + [send], pop);
    ExecAppend(window, ClientCloses() + [send] + [pop], deliver);
    var s4 := Exec(window, ClientCloses());
    SideSends(s4.server, s4.client, Server, window, 2, HalfClosedRemote, true, {});
    var s5 := Next(s4, send);
    SidePops(s5.server, s5.client, Server, window, 2, Closed, true, {});
    EmptyDataChangesNothing(window);
  }

  /** A side whose last pop comes after the partner's FIN has reached it never announces its own: the partner waits. */
  lemma SecondFinIsNeverSent(window: nat)
    ensures exists events :: Settled(Exec(window, events), 1)
              && View(Exec(window, events).client.mux, 1).phase.HalfClosedLocal?
  {
    ServerClosesState(window);
    assert Settled(Exec(window, ServerCloses()), 1);
  }
}
