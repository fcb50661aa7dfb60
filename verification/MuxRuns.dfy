/** One multiplexer under every sequence of calls, with arbitrary frames from its peer. */
module MuxRuns {
  import opened Common
  import opened MapSums
  import opened Streams
  import opened MuxSteps

  /** `Pop(id)` serves stream `id` if the scheduler may; otherwise it leaves the state alone. */
  datatype Call =
    | Open(priority: Priority)
    | Send(id: nat, data: seq<Byte>, fin: bool)
    | Deliver(frame: Frame)
    | Pop(id: nat)
    | Read(id: nat)
    | ResetLocal(id: nat)

  /** A multiplexer together with what it has done so far. */
  datatype Run = Run(
    mux: Mux,
    emitted: seq<Frame>,
    localIds: seq<nat>,
    accepted: nat,
    refused: map<nat, nat>)

  /** The frame is charged to its stream and then refused by the session window. */
  predicate RefusedAfterCharge(m: Mux, f: Frame) {
    && f.kind.Data? && f.id != ID_CONTROL && f.payload != []
    && (f.id in m.streams || BelongsToPeer(f.id, m.role))
    && View(m, f.id).phase.CanRecv()
    && View(m, f.id).flow.ChargeRecv(|f.payload|).Some?
    && m.session.ChargeRecv(|f.payload|).None?
  }

  function Refused(r: Run, id: nat): nat {
    if id in r.refused then r.refused[id] else 0
  }

  function Step(r: Run, c: Call): Run {
    match c
    case Open(priority) =>
      var (m, id) := OpenStream(r.mux, priority);
      r.(mux := m, localIds := if id == 0 then r.localIds else r.localIds + [id])
    case Send(id, data, fin) =>
      var (m, ok) := SendData(r.mux, id, data, fin);
      r.(mux := m, accepted := r.accepted + if ok then |data| else 0)
    case Deliver(f) =>
      r.(mux := OnFrame(r.mux, f).0,
         refused := if RefusedAfterCharge(r.mux, f) then r.refused[f.id := Refused(r, f.id) + |f.payload|]
                    else r.refused)
    case Pop(id) =>
      if !Schedulable(r.mux, id) then r
      else
        var (m, f) := PopOutbound(r.mux, id);
        r.(mux := m, emitted := r.emitted + [f])
    case Read(id) => r.(mux := ReadInbound(r.mux, id).0)
    case ResetLocal(id) => r.(mux := ResetStream(r.mux, id).0)
  }

  function Exec(role: Role, window: nat, calls: seq<Call>): Run {
    if calls == [] then Run(InitialMux(role, window), [], [], 0, map[])
    else Step(Exec(role, window, calls[..|calls| - 1]), calls[|calls| - 1])
  }

  // ----- Receive windows -----

  /** Bytes waiting to be read, per stream. */
  function Buffered(m: Mux): map<nat, nat> {
    map id | id in m.streams :: |m.streams[id].inbound|
  }

  ghost predicate StreamBalanced(r: Run, id: nat)
    requires id in r.mux.streams
  {
    var s := r.mux.streams[id];
    s.flow.recvWindow >= 0 && s.flow.recvWindow + |s.inbound| + Refused(r, id) == r.mux.window
  }

  /** Every byte of every receive window is free, buffered, or lost to a refused charge. */
  ghost predicate RecvBalanced(r: Run) {
    && r.mux.session.recvWindow >= 0
    && r.mux.session.recvWindow + Total(Buffered(r.mux)) == r.mux.window
    && (forall id :: id in r.mux.streams ==> StreamBalanced(r, id))
    && (forall id :: id in r.refused ==> id in r.mux.streams)
  }

  /** Storing one stream record changes the buffered total by that stream's difference. */
  lemma BufferedUpdate(m: Mux, id: nat, s: Stream)
    ensures Total(Buffered(m.(streams := m.streams[id := s]))) ==
            Total(Buffered(m)) - |View(m, id).inbound| + |s.inbound|
  {
    TotalUpdate(Buffered(m), id, |s.inbound|);
    assert Buffered(m.(streams := m.streams[id := s])) == Buffered(m)[id := |s.inbound|];
  }

  /** A step that stores one stream record keeps the balance if it does so for that stream and the session. */
  lemma StoreKeepsRecvBalanced(r: Run, r': Run, id: nat, s: Stream)
    requires RecvBalanced(r) && r'.mux.window == r.mux.window
    requires r'.mux.streams == r.mux.streams[id := s]
    requires r'.refused == r.refused || r'.refused == r.refused[id := Refused(r', id)]
    requires s.flow.recvWindow >= 0 && s.flow.recvWindow + |s.inbound| + Refused(r', id) == r.mux.window
    requires r'.mux.session.recvWindow >= 0
    requires r'.mux.session.recvWindow + |s.inbound| == r.mux.session.recvWindow + |View(r.mux, id).inbound|
    ensures RecvBalanced(r')
  {
    BufferedUpdate(r.mux, id, s);
    assert Buffered(r'.mux) == Buffered(r.mux.(streams := r.mux.streams[id := s]));
    forall j | j in r'.mux.streams
      ensures StreamBalanced(r', j)
    {
      assert j != id ==> StreamBalanced(r, j);
    }
  }

  /** The balance of a stream that may not exist yet. */
  lemma ViewBalanced(r: Run, id: nat)
    requires RecvBalanced(r)
    ensures View(r.mux, id).flow.recvWindow >= 0
    ensures View(r.mux, id).flow.recvWindow + |View(r.mux, id).inbound| + Refused(r, id) == r.mux.window
    ensures 0 <= r.mux.session.recvWindow <= r.mux.window - |View(r.mux, id).inbound|
  {
    if id in r.mux.streams {
      TotalBounds(Buffered(r.mux), id);
      assert StreamBalanced(r, id);
    }
  }

  lemma DeliverKeepsRecvBalanced(r: Run, f: Frame)
    requires RecvBalanced(r)
    ensures RecvBalanced(Step(r, Deliver(f))) && Step(r, Deliver(f)).mux.window == r.mux.window
  {
    hide RecvBalanced;
    var r' := Step(r, Deliver(f));
    if f.id == ID_CONTROL || (f.id !in r.mux.streams && !BelongsToPeer(f.id, r.mux.role)) {
      assert r' == r;
    } else {
      ViewBalanced(r, f.id);
      StoreKeepsRecvBalanced(r, r', f.id, View(r'.mux, f.id));
    }
  }

  /** Sending, popping and resetting touch one record, and not what it has received. */
  lemma SendSideOnly(r: Run, c: Call)
    requires c.Send? || c.Pop? || c.ResetLocal?
    ensures var r' := Step(r, c);
            && r'.mux.window == r.mux.window && r'.refused == r.refused
            && r'.mux.session.recvWindow == r.mux.session.recvWindow
            && (r'.mux.streams == r.mux.streams ||
                var s := View(r'.mux, c.id);
                && r'.mux.streams == r.mux.streams[c.id := s]
                && s.flow.recvWindow == View(r.mux, c.id).flow.recvWindow && s.inbound == View(r.mux, c.id).inbound)
  {
  }

  lemma SameStreamsSameBalance(r: Run, r': Run)
    requires RecvBalanced(r) && r'.mux.window == r.mux.window && r'.refused == r.refused
    requires r'.mux.streams == r.mux.streams && r'.mux.session.recvWindow == r.mux.session.recvWindow
    ensures RecvBalanced(r')
  {
    assert Buffered(r'.mux) == Buffered(r.mux);
    forall id | id in r'.mux.streams
      ensures StreamBalanced(r', id)
    {
      assert StreamBalanced(r, id);
    }
  }

  lemma SendSideKeepsRecvBalanced(r: Run, c: Call)
    requires RecvBalanced(r) && (c.Send? || c.Pop? || c.ResetLocal?)
    ensures RecvBalanced(Step(r, c)) && Step(r, c).mux.window == r.mux.window
  {
    SendSideOnly(r, c);
    hide RecvBalanced, Step;
    var r' := Step(r, c);
    if r'.mux.streams == r.mux.streams {
      SameStreamsSameBalance(r, r');
    } else {
      ViewBalanced(r, c.id);
      StoreKeepsRecvBalanced(r, r', c.id, View(r'.mux, c.id));
    }
  }

  lemma OpenKeepsRecvBalanced(r: Run, priority: Priority)
    requires RecvBalanced(r)
    ensures RecvBalanced(Step(r, Call.Open(priority))) && Step(r, Call.Open(priority)).mux.window == r.mux.window
  {
    hide RecvBalanced;
    var r' := Step(r, Call.Open(priority));
    if r'.mux.streams == r.mux.streams {
      SameStreamsSameBalance(r, r');
    } else {
      ViewBalanced(r, r.mux.nextId);
      StoreKeepsRecvBalanced(r, r', r.mux.nextId, r'.mux.streams[r.mux.nextId]);
    }
  }

  lemma ReadKeepsRecvBalanced(r: Run, id: nat)
    requires RecvBalanced(r) && r.mux.window <= MAX_WINDOW
    ensures RecvBalanced(Step(r, Read(id))) && Step(r, Read(id)).mux.window == r.mux.window
  {
    hide RecvBalanced;
    var r' := Step(r, Read(id));
    if id in r.mux.streams {
      ViewBalanced(r, id);
      StoreKeepsRecvBalanced(r, r', id, r'.mux.streams[id]);
    }
  }

  lemma StepKeepsRecvBalanced(r: Run, c: Call)
    requires RecvBalanced(r) && r.mux.window <= MAX_WINDOW
    ensures RecvBalanced(Step(r, c)) && Step(r, c).mux.window == r.mux.window
  {
    hide RecvBalanced, Step;
    match c
    case Deliver(f) => DeliverKeepsRecvBalanced(r, f);
    case Open(priority) => OpenKeepsRecvBalanced(r, priority);
    case Read(id) => ReadKeepsRecvBalanced(r, id);
    case _ => SendSideKeepsRecvBalanced(r, c);
  }

  lemma {:induction false} RecvWindowsBalance(role: Role, window: nat, calls: seq<Call>)
    requires window <= MAX_WINDOW
    ensures RecvBalanced(Exec(role, window, calls)) && Exec(role, window, calls).mux.window == window
  {
    if calls == [] {
      assert Buffered(InitialMux(role, window)) == map[];
    } else {
      RecvWindowsBalance(role, window, calls[..|calls| - 1]);
      StepKeepsRecvBalanced(Exec(role, window, calls[..|calls| - 1]), calls[|calls| - 1]);
    }
  }

  /** Above the 1 GiB cap the first replenishment is refused and the balance is lost. */
  lemma LargeWindowLosesBalance(role: Role, window: nat)
    requires window > MAX_WINDOW
    ensures exists calls :: !RecvBalanced(Exec(role, window, calls))
  {
    var id := role.Peer().FirstId();
    var c0, c1 := Deliver(Frame(Data, 0, id, [0])), Read(id);
    var calls := [c0, c1];
    assert calls[..1] == [c0] && [c0][..0] == [];
    var r1 := Exec(role, window, [c0]);
    assert r1 == Step(Exec(role, window, []), c0);
    assert r1.mux.streams.Keys == {id} && |r1.mux.streams[id].inbound| == 1;
    var r2 := Exec(role, window, calls);
    assert r2 == Step(r1, c1);
    assert Refused(r2, id) == 0 && r2.mux.streams[id].inbound == [];
    assert r2.mux.streams[id].flow.recvWindow == window - 1;
    assert !StreamBalanced(r2, id);
  }

  /** The same one-byte frame, delivered `n` times. */
  function Fill(id: nat, n: nat): seq<Call> {
    seq(n, _ => Deliver(Frame(Data, 0, id, [0])))
  }

  /** Each of them takes one byte off the session window and off the window of its stream. */
  lemma {:induction false} FillUses(role: Role, window: nat, id: nat, n: nat)
    requires n <= window && id != ID_CONTROL && BelongsToPeer(id, role)
    ensures var m := Exec(role, window, Fill(id, n)).mux;
            && m.role == role && m.window == window && m.session.recvWindow == window - n
            && m.streams.Keys <= {id}
            && View(m, id).phase.Open? && View(m, id).flow.recvWindow == window - n
  {
    if n == 0 {
    } else {
      FillUses(role, window, id, n - 1);
      assert Fill(id, n)[..n - 1] == Fill(id, n - 1);
      assert Exec(role, window, Fill(id, n)) ==
             Step(Exec(role, window, Fill(id, n - 1)), Deliver(Frame(Data, 0, id, [0])));
    }
  }

  /** Every frame the calls deliver is one the wire format can carry. */
  predicate Carried(calls: seq<Call>) {
    forall c :: c in calls && c.Deliver? ==> |c.frame.payload| <= MAX_PAYLOAD
  }

  lemma {:induction false} ChargeIsLost(role: Role, window: nat) returns (calls: seq<Call>, id: nat)
    requires window > 0
    ensures Carried(calls) && Refused(Exec(role, window, calls), id) == 1
  {
    var a := role.Peer().FirstId();
    id := a + 2;
    FillUses(role, window, a, window);
    var c := Deliver(Frame(Data, 0, id, [0]));
    calls := Fill(a, window) + [c];
    assert calls[..window] == Fill(a, window);
    var r := Exec(role, window, Fill(a, window));
    NothingRefused(role, window, a, window);
    assert RefusedAfterCharge(r.mux, c.frame);
    assert Exec(role, window, calls) == Step(r, c);
  }

  lemma {:induction false} NothingRefused(role: Role, window: nat, id: nat, n: nat)
    requires n <= window && id != ID_CONTROL && BelongsToPeer(id, role)
    ensures Exec(role, window, Fill(id, n)).refused == map[]
  {
    if n == 0 {
    } else {
      NothingRefused(role, window, id, n - 1);
      FillUses(role, window, id, n - 1);
      assert Fill(id, n)[..n - 1] == Fill(id, n - 1);
    }
  }

  /**
    Charges do get lost: when one-byte frames have used up the session window on one stream, a byte for
    another stream is charged to that stream and then refused. Only an empty window rules this out.
   */
  lemma {:induction false} SomeChargeIsLost(role: Role, window: nat)
    ensures (exists calls, id :: Carried(calls) && Refused(Exec(role, window, calls), id) > 0) <==> window > 0
  {
    if window > 0 {
      var calls, id := ChargeIsLost(role, window);
      assert Carried(calls) && Refused(Exec(role, window, calls), id) > 0;
    } else {
      forall calls, id
        ensures Refused(Exec(role, window, calls), id) == 0
      {
        RecvWindowsBalance(role, window, calls);
        ViewBalanced(Exec(role, window, calls), id);
      }
    }
  }

  /** Receive windows balance in every run exactly when the initial window is within the cap. */
  lemma RecvBalanceIffWithinCap(role: Role, window: nat)
    ensures (forall calls :: RecvBalanced(Exec(role, window, calls))) <==> window <= MAX_WINDOW
  {
    if window <= MAX_WINDOW {
      forall calls
        ensures RecvBalanced(Exec(role, window, calls))
      {
        RecvWindowsBalance(role, window, calls);
      }
    } else {
      LargeWindowLosesBalance(role, window);
    }
  }

  // ----- Send credit -----

  /** The session never sends more than its initial window in its whole life: credit is never granted back. */
  lemma {:induction false} SessionCreditIsSpentOnce(role: Role, window: nat, calls: seq<Call>)
    ensures var r := Exec(role, window, calls);
            r.mux.session.sendCredit >= 0 && r.mux.session.sendCredit + r.accepted == window
  {
    if calls == [] {
    } else {
      SessionCreditIsSpentOnce(role, window, calls[..|calls| - 1]);
    }
  }

  // ----- FIN -----

  /** Once a stream has emitted FIN it can neither queue nor emit anything again. */
  ghost predicate FinIsLast(r: Run) {
    && (forall i, j :: 0 <= i < j < |r.emitted| && r.emitted[i].HasFin() ==> r.emitted[j].id != r.emitted[i].id)
    && (forall i :: 0 <= i < |r.emitted| && r.emitted[i].HasFin() ==> Finished(r.mux, r.emitted[i].id))
  }

  predicate Finished(m: Mux, id: nat) {
    id in m.streams && !m.streams[id].phase.CanSend() && !m.streams[id].phase.Idle? && m.streams[id].outbound == []
  }

  /** Being finished is stable under every call. */
  lemma FinishedIsStable(r: Run, c: Call, id: nat)
    requires Finished(r.mux, id)
    requires c.Open? ==> r.mux.nextId != id
    ensures Finished(Step(r, c).mux, id)
  {
  }

  // ----- Identifiers -----

  /** Local ids are handed out in increasing order, in one parity, and only by the allocator. */
  ghost predicate IdsOrdered(r: Run) {
    var m := r.mux;
    && m.nextId >= 1 && !BelongsToPeer(m.nextId, m.role)
    && (forall i, j :: 0 <= i < j < |r.localIds| ==> r.localIds[i] < r.localIds[j])
    && (forall i :: 0 <= i < |r.localIds| ==>
          0 < r.localIds[i] < m.nextId && r.localIds[i] <= ID_MAX && !BelongsToPeer(r.localIds[i], m.role))
    && (forall id :: id in m.streams ==> id != ID_CONTROL && (BelongsToPeer(id, m.role) || id in r.localIds))
  }

  lemma StepKeepsIds(r: Run, c: Call)
    requires IdsOrdered(r)
    ensures IdsOrdered(Step(r, c))
    ensures c.Open? && OpenStream(r.mux, c.priority).1 != 0 ==>
              OpenStream(r.mux, c.priority).1 !in r.mux.streams && OpenStream(r.mux, c.priority).1 !in r.localIds
  {
    var r' := Step(r, c);
    if c.Open? && r' != r {
      var n := r.mux.nextId;
      assert r'.localIds == r.localIds + [n];
      assert n in r'.localIds;
      forall id | id in r'.mux.streams
        ensures id != ID_CONTROL && (BelongsToPeer(id, r'.mux.role) || id in r'.localIds)
      {
        assert id == n || id in r.mux.streams;
        assert id in r.localIds ==> id in r'.localIds;
      }
    }
  }

  lemma StepKeepsFinLast(r: Run, c: Call)
    requires IdsOrdered(r) && FinIsLast(r)
    ensures FinIsLast(Step(r, c))
  {
    var r' := Step(r, c);
    forall i | 0 <= i < |r.emitted| && r.emitted[i].HasFin()
      ensures Finished(r'.mux, r.emitted[i].id)
    {
      StepKeepsIds(r, c);
      if c.Pop? && Schedulable(r.mux, c.id) {
        assert c.id != r.emitted[i].id;
      } else {
        FinishedIsStable(r, c, r.emitted[i].id);
      }
    }
  }

  /** In every run: ids never repeat or collide, and each stream's FIN is its one and last frame of that kind. */
  lemma {:induction false} IdsAndFinsOfRuns(role: Role, window: nat, calls: seq<Call>)
    ensures IdsOrdered(Exec(role, window, calls)) && FinIsLast(Exec(role, window, calls))
  {
    if calls == [] {
    } else {
      IdsAndFinsOfRuns(role, window, calls[..|calls| - 1]);
      StepKeepsIds(Exec(role, window, calls[..|calls| - 1]), calls[|calls| - 1]);
      StepKeepsFinLast(Exec(role, window, calls[..|calls| - 1]), calls[|calls| - 1]);
    }
  }
}
