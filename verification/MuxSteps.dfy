/**
  The steps of the stream multiplexer, on values. Every public method runs under one mutex, so
  each method is one atomic step.
 */
module MuxSteps {
  import opened Common
  import opened Streams

  datatype Mux = Mux(role: Role, window: nat, nextId: nat, session: Flow, streams: map<nat, Stream>)

  function InitialMux(role: Role, window: nat): Mux {
    Mux(role, window, role.FirstId(), Flow(window, window), map[])
  }

  /** The record of a stream; an unknown stream looks like one that has just been created. */
  function View(m: Mux, id: nat): Stream {
    if id in m.streams then m.streams[id] else FreshStream(id, m.window)
  }

  function OpenStream(m: Mux, priority: Priority): (Mux, nat) {
    if m.nextId > ID_MAX then (m, 0)
    else
      var id := m.nextId;
      (m.(nextId := id + 2, streams := m.streams[id := View(m, id).(priority := priority)]), id)
  }

  function SendData(m: Mux, id: nat, data: seq<Byte>, fin: bool): (Mux, bool) {
    if id !in m.streams || !m.streams[id].phase.CanSend() || |data| > MAX_PAYLOAD then (m, false)
    else
      var s := m.streams[id];
      if |data| > 0 && !(s.flow.CanSend(|data|) && m.session.CanSend(|data|)) then (m, false)
      else
        var queued :=
          if |data| == 0 then s
          else s.(flow := Attempt(s.flow, s.flow.ChargeSend(|data|)), outbound := s.outbound + [data]);
        var session := if |data| == 0 then m.session else Attempt(m.session, m.session.ChargeSend(|data|));
        var closed :=
          if !fin then queued
          else queued.(phase := queued.phase.OnSentFin(),
                       outbound := if queued.outbound == [] then [[]] else queued.outbound);
        (m.(session := session, streams := m.streams[id := closed]), true)
  }

  /** What an inbound frame does to the session flow and to the record of its stream. */
  function Receive(session: Flow, s: Stream, f: Frame): (Flow, Stream, bool) {
    match f.kind
    case Data => ReceiveData(session, s, f)
    case Window =>
      if |f.payload| < 4 then (session, s, false)
      else (session, s.(flow := Attempt(s.flow, s.flow.GrantSend(WindowDelta(f.payload)))), true)
    case Reset => (session, s.(phase := Closed), true)
    case _ => (session, s, true)
  }

  function ReceiveData(session: Flow, s: Stream, f: Frame): (Flow, Stream, bool) {
    var n := |f.payload|;
    if !s.phase.CanRecv() then (session, s, false)
    else if n > 0 && s.flow.ChargeRecv(n).None? then (session, s, false)
    else
      // The stream is charged before the session and keeps the charge if the session refuses.
      var charged := if n == 0 then s else s.(flow := s.flow.ChargeRecv(n).value);
      if n > 0 && session.ChargeRecv(n).None? then (session, charged, false)
      else
        var buffered := charged.(inbound := charged.inbound + f.payload);
        (if n == 0 then session else session.ChargeRecv(n).value,
         if f.HasFin() then buffered.(phase := buffered.phase.OnRecvFin(), inboundFin := true) else buffered,
         true)
  }

  function OnFrame(m: Mux, f: Frame): (Mux, bool) {
    if f.id == ID_CONTROL then (m, true)
    else if f.id !in m.streams && !BelongsToPeer(f.id, m.role) then (m, false)
    else
      var (session, s, ok) := Receive(m.session, View(m, f.id), f);
      (m.(session := session, streams := m.streams[f.id := s]), ok)
  }

  /** Streams the scheduler may serve next: something queued, and no queued stream in a better band. */
  predicate Schedulable(m: Mux, id: nat) {
    && id in m.streams
    && m.streams[id].outbound != []
    && forall j :: j in m.streams && m.streams[j].outbound != [] ==> m.streams[id].priority <= m.streams[j].priority
  }

  function PopOutbound(m: Mux, id: nat): (Mux, Frame)
    requires id in m.streams && m.streams[id].outbound != []
  {
    var s := m.streams[id];
    var rest := s.outbound[1..];
    var fin := rest == [] && s.phase.HalfClosedLocal?;
    (m.(streams := m.streams[id := s.(outbound := rest)]), Frame(Data, if fin then 1 else 0, id, s.outbound[0]))
  }

  function ReadInbound(m: Mux, id: nat): (Mux, seq<Byte>) {
    if id !in m.streams then (m, [])
    else
      var s := m.streams[id];
      var n := |s.inbound|;
      var flow := Attempt(s.flow, s.flow.GrantRecv(n));
      (m.(session := Attempt(m.session, m.session.GrantRecv(n)),
          streams := m.streams[id := s.(inbound := [], flow := flow)]), s.inbound)
  }

  function ResetStream(m: Mux, id: nat): (Mux, bool) {
    if id !in m.streams then (m, false)
    else (m.(streams := m.streams[id := m.streams[id].(phase := Closed)]), true)
  }
}
