/** The stream multiplexer object: each method performs one step of MuxSteps on the fields. */
module Multiplexer {
  import opened Common
  import opened Streams
  import opened MuxSteps

  class StreamMultiplexer {
    const role: Role
    const initialWindow: nat
    var nextId: nat
    var session: Flow
    var streams: map<nat, Stream>

    ghost function State(): Mux
      reads this
    {
      Mux(role, initialWindow, nextId, session, streams)
    }

    constructor (role: Role, window: nat)
      ensures State() == InitialMux(role, window)
    {
      this.role := role;
      initialWindow := window;
      nextId := role.FirstId();
      session := Flow(window, window);
      streams := map[];
    }

    method FindOrCreate(id: nat)
      modifies this
      ensures State() == old(State()).(streams := old(streams)[id := View(old(State()), id)])
    {
      if id in streams {
        assert streams == streams[id := streams[id]];
        return;
      }
      streams := streams[id := FreshStream(id, initialWindow)];
    }

    method OpenStream(priority: Priority) returns (id: nat)
      modifies this
      ensures (State(), id) == MuxSteps.OpenStream(old(State()), priority)
    {
      if nextId > ID_MAX {
        return 0;
      }
      id := nextId;
      nextId := nextId + 2;
      FindOrCreate(id);
      streams := streams[id := streams[id].(priority := priority)];
      assert streams == old(streams)[id := streams[id]];
    }

    method SendData(id: nat, data: seq<Byte>, fin: bool) returns (ok: bool)
      modifies this
      ensures (State(), ok) == MuxSteps.SendData(old(State()), id, data, fin)
    {
      if id !in streams || !streams[id].phase.CanSend() {
        return false;
      }
      if |data| > MAX_PAYLOAD {
        return false;
      }
      var rec := streams[id];
      if |data| > 0 {
        if !rec.flow.CanSend(|data|) || !session.CanSend(|data|) {
          return false;
        }
        rec := rec.(flow := Attempt(rec.flow, rec.flow.ChargeSend(|data|)));
        session := Attempt(session, session.ChargeSend(|data|));
        rec := rec.(outbound := rec.outbound + [data]);
      }
      if fin {
        rec := rec.(phase := rec.phase.OnSentFin());
        if rec.outbound == [] {
          rec := rec.(outbound := [[]]);
        }
      }
      streams := streams[id := rec];
      return true;
    }

    method OnFrame(f: Frame) returns (ok: bool)
      modifies this
      ensures (State(), ok) == MuxSteps.OnFrame(old(State()), f)
    {
      if f.id == ID_CONTROL {
        return true;
      }
      if f.id !in streams {
        if !BelongsToPeer(f.id, role) {
          return false;
        }
      }
      FindOrCreate(f.id);
      var rec := streams[f.id];
      match f.kind
      case Data =>
        if !rec.phase.CanRecv() {
          return false;
        }
        if |f.payload| > 0 {
          var charged := rec.flow.ChargeRecv(|f.payload|);
          if charged.None? {
            return false;
          }
          rec := rec.(flow := charged.value);
          streams := streams[f.id := rec];
          assert streams == old(streams)[f.id := rec];
          var sessionCharged := session.ChargeRecv(|f.payload|);
          if sessionCharged.None? {
            return false;
          }
          session := sessionCharged.value;
          rec := rec.(inbound := rec.inbound + f.payload);
        } else {
          assert rec.inbound + f.payload == rec.inbound;
        }
        if f.HasFin() {
          rec := rec.(phase := rec.phase.OnRecvFin());
          rec := rec.(inboundFin := true);
        }
        streams := streams[f.id := rec];
        assert streams == old(streams)[f.id := rec];
        return true;
      case Window =>
        if |f.payload| < 4 {
          return false;
        }
        rec := rec.(flow := Attempt(rec.flow, rec.flow.GrantSend(WindowDelta(f.payload))));
        streams := streams[f.id := rec];
        assert streams == old(streams)[f.id := rec];
        return true;
      case Reset =>
        rec := rec.(phase := Closed);
        streams := streams[f.id := rec];
        assert streams == old(streams)[f.id := rec];
        return true;
      case _ =>
        return true;
    }

    /** The scan order inside a band is the hash map's, so any schedulable stream may be served. */
    method PopOutbound() returns (frame: Option<Frame>)
      modifies this
      ensures frame.None? ==>
                State() == old(State()) && forall j :: j in streams ==> streams[j].outbound == []
      ensures frame.Some? ==>
                && Schedulable(old(State()), frame.value.id)
                && (State(), frame.value) == MuxSteps.PopOutbound(old(State()), frame.value.id)
    {
      for band := 0 to PRIORITY_COUNT
        invariant State() == old(State())
        invariant forall j :: j in streams && streams[j].outbound != [] ==> streams[j].priority >= band
      {
        var todo := streams.Keys;
        while todo != {}
          invariant todo <= streams.Keys
          invariant State() == old(State())
          invariant forall j :: j in streams && streams[j].outbound != [] ==> streams[j].priority >= band
          invariant forall j :: j in streams.Keys - todo && streams[j].outbound != [] ==> streams[j].priority > band
          decreases |todo|
        {
          var id :| id in todo;
          todo := todo - {id};
          var rec := streams[id];
          if rec.priority != band {
            continue;
          }
          if rec.outbound == [] {
            continue;
          }
          var chunk := rec.outbound[0];
          rec := rec.(outbound := rec.outbound[1..]);
          var flags: Byte := 0;
          if rec.outbound == [] && rec.phase == HalfClosedLocal {
            flags := 1;
          }
          streams := streams[id := rec];
          return Some(Frame(Data, flags, id, chunk));
        }
      }
      return None;
    }

    method ReadInbound(id: nat) returns (out: seq<Byte>)
      modifies this
      ensures (State(), out) == MuxSteps.ReadInbound(old(State()), id)
    {
      if id !in streams {
        return [];
      }
      var rec := streams[id];
      out := rec.inbound;
      var n := |rec.inbound|;
      rec := rec.(inbound := []);
      rec := rec.(flow := Attempt(rec.flow, rec.flow.GrantRecv(n)));
      session := Attempt(session, session.GrantRecv(n));
      streams := streams[id := rec];
    }

    method ResetStream(id: nat) returns (ok: bool)
      modifies this
      ensures (State(), ok) == MuxSteps.ResetStream(old(State()), id)
    {
      if id !in streams {
        return false;
      }
      streams := streams[id := streams[id].(phase := Closed)];
      return true;
    }
  }
}
