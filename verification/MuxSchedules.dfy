/** What the order of pops and deliveries decides, in every run of the two multiplexers. */
module MuxSchedules {
  import opened Common
  import opened MapSums
  import opened Streams
  import opened MuxSteps
  import opened MuxProtocol

  /** The peer on the client's side, or the other one. */
  function Side(sys: System, byClient: bool): Peer {
    if byClient then sys.client else sys.server
  }

  // ----- Who announces its FIN -----

  predicate Finished(m: Mux, id: nat) {
    !View(m, id).phase.CanSend() && View(m, id).outbound == []
  }

  /** This action takes the last queued chunk of a stream that its side has closed. */
  predicate Empties(p: Peer, a: Action, id: nat) {
    a == Pop(id) && Schedulable(p.mux, id) && |View(p.mux, id).outbound| == 1 && !View(p.mux, id).phase.CanSend()
  }

  /** This action takes the partner's FIN of a stream off the channel. */
  predicate TakesFin(q: Peer, a: Action, id: nat) {
    a.Deliver? && q.out != [] && q.out[0].kind.Data? && q.out[0].id == id && q.out[0].HasFin()
  }

  /** When a side's pop emptied the queue of the stream it had closed. */
  function EmptiedAt(window: nat, events: seq<Event>, byClient: bool, id: nat): (t: Option<nat>)
    ensures t.Some? ==> t.value < |events|
  {
    if events == [] then None
    else
      var before, e := events[..|events| - 1], events[|events| - 1];
      var t := EmptiedAt(window, before, byClient, id);
      if t.Some? then t
      else if e.byClient == byClient && Empties(Side(Exec(window, before), byClient), e.action, id) then Some(|before|)
      else None
  }

  /** When the partner's FIN was delivered to a side. */
  function FinTakenAt(window: nat, events: seq<Event>, byClient: bool, id: nat): (t: Option<nat>)
    ensures t.Some? ==> t.value < |events|
  {
    if events == [] then None
    else
      var before, e := events[..|events| - 1], events[|events| - 1];
      var t := FinTakenAt(window, before, byClient, id);
      if t.Some? then t
      else if e.byClient == byClient && TakesFin(Side(Exec(window, before), !byClient), e.action, id) then Some(|before|)
      else None
  }

  /** The side emptied its closed queue, and did so before the partner's FIN reached it. */
  predicate EmptiesFirst(window: nat, events: seq<Event>, byClient: bool, id: nat) {
    var mine, theirs := EmptiedAt(window, events, byClient, id), FinTakenAt(window, events, byClient, id);
    mine.Some? && (theirs.None? || mine.value < theirs.value)
  }

  /** The times say what the two halves of the stream have come to, and their order whether a FIN was sent. */
  ghost predicate Timed(window: nat, events: seq<Event>, byClient: bool, id: nat) {
    var p := Side(Exec(window, events), byClient);
    && (EmptiedAt(window, events, byClient, id).Some? <==> Finished(p.mux, id))
    && (FinTakenAt(window, events, byClient, id).Some? <==> !View(p.mux, id).phase.CanRecv())
    && (id in p.finsSent <==> EmptiesFirst(window, events, byClient, id))
  }

  lemma SendCloses(p: Peer, q: Peer, id: nat, data: seq<Byte>, fin: bool, j: nat)
    requires !View(p.mux, j).phase.Idle?
    ensures var p' := DoSend(p, id, data, fin);
            && Finished(p'.mux, j) == Finished(p.mux, j)
            && View(p'.mux, j).phase.CanRecv() == View(p.mux, j).phase.CanRecv()
  {
    FinClosesOneDirection(View(p.mux, j).phase);
  }

  lemma PopCloses(p: Peer, q: Peer, id: nat, j: nat)
    requires Schedulable(p.mux, id) && !View(p.mux, j).phase.Idle?
    ensures var p' := DoPop(p, id);
            && (Finished(p'.mux, j) <==> Finished(p.mux, j) || Empties(p, Pop(id), j))
            && View(p'.mux, j).phase.CanRecv() == View(p.mux, j).phase.CanRecv()
            && (j in p'.finsSent <==>
                  j in p.finsSent || (Empties(p, Pop(id), j) && View(p.mux, j).phase.CanRecv()))
  {
    PopLanes(p, q, id, DoPop(p, id), j);
  }

  lemma DeliverCloses(p: Peer, q: Peer, j: nat)
    requires DirectionInv(p, q) && DirectionInv(q, p) && q.out != []
    ensures var p' := Act(p, q, Deliver).0;
            && Finished(p'.mux, j) == Finished(p.mux, j)
            && (View(p'.mux, j).phase.CanRecv() <==> View(p.mux, j).phase.CanRecv() && !TakesFin(q, Deliver, j))
  {
    HeadIsAccepted(q, p);
    assert Deliverable(q.mux, q.out[0]);
    assert StreamInv(p, q, j);
    hide DirectionInv, StreamInv, OnFrame;
    var (p', q') := Act(p, q, Deliver);
    DeliverLanes(p, q, p', q', j);
  }

  /** What one action does to the halves of a stream and to the FINs sent, on the acting side. */
  lemma ActCloses(p: Peer, q: Peer, a: Action, j: nat)
    requires DirectionInv(p, q) && DirectionInv(q, p)
    ensures var p' := Act(p, q, a).0;
            && (Finished(p'.mux, j) <==> Finished(p.mux, j) || Empties(p, a, j))
            && (View(p'.mux, j).phase.CanRecv() <==> View(p.mux, j).phase.CanRecv() && !TakesFin(q, a, j))
            && (j in p'.finsSent <==> j in p.finsSent || (Empties(p, a, j) && View(p.mux, j).phase.CanRecv()))
  {
    assert StreamInv(p, q, j);
    hide DirectionInv, StreamInv, OnFrame;
    var p' := Act(p, q, a).0;
    match a
    case Open(priority) => OpenLanes(p, q, priority, p', j);
    case Send(id, data, fin) => SendCloses(p, q, id, data, fin, j);
    case Pop(id) =>
      if Schedulable(p.mux, id) {
        PopCloses(p, q, id, j);
      }
    case Read(id) => ReadLanes(p, q, id, p', j);
    case Inject(f) =>
    case Deliver =>
      if q.out != [] {
        DeliverCloses(p, q, j);
      }
  }

  lemma {:induction false} PartnerKeeps(p: Peer, q: Peer, a: Action)
    ensures var q' := Act(p, q, a).1; q'.mux == q.mux && q'.finsSent == q.finsSent
  {
  }

  lemma {:induction false} RunsAreTimed(window: nat, events: seq<Event>, byClient: bool, id: nat)
    ensures Timed(window, events, byClient, id)
  {
    if events == [] {
    } else {
      var before, e := events[..|events| - 1], events[|events| - 1];
      RunsAreTimed(window, before, byClient, id);
      RunsKeepInv(window, before);
      var sys := Exec(window, before);
      var p, q := Side(sys, e.byClient), Side(sys, !e.byClient);
      if e.byClient == byClient {
        ActCloses(p, q, e.action, id);
      } else {
        PartnerKeeps(p, q, e.action);
      }
    }
  }

  /**
    A side announces its FIN exactly if the pop that empties its queue after closing comes before the
    partner's FIN is delivered to it.
   */
  lemma {:induction false} FinSentIffEmptiedFirst(window: nat, events: seq<Event>, byClient: bool, id: nat)
    ensures id in Side(Exec(window, events), byClient).finsSent <==> EmptiesFirst(window, events, byClient, id)
  {
    RunsAreTimed(window, events, byClient, id);
  }

  /**
    In a settled stream both sides have emptied their queues, a side is closed exactly if the other
    did so before it was reached by a FIN, and so both are closed exactly if that holds for both.
   */
  lemma {:induction false} ClosedIffEmptiedFirst(window: nat, events: seq<Event>, id: nat)
    requires Settled(Exec(window, events), id)
    ensures var sys := Exec(window, events);
            var c, s := View(sys.client.mux, id).phase, View(sys.server.mux, id).phase;
            && EmptiedAt(window, events, true, id).Some? && EmptiedAt(window, events, false, id).Some?
            && (c.Closed? <==> EmptiesFirst(window, events, false, id))
            && (s.Closed? <==> EmptiesFirst(window, events, true, id))
            && (EmptiesFirst(window, events, true, id) || EmptiesFirst(window, events, false, id))
  {
    hide EmptiedAt, FinTakenAt, Exec, Settled;
    SettledStreamPhases(window, events, id);
    SettledIsFinished(Exec(window, events), id);
    RunsAreTimed(window, events, true, id);
    RunsAreTimed(window, events, false, id);
  }

  lemma {:induction false} SettledIsFinished(sys: System, id: nat)
    requires Settled(sys, id)
    ensures Finished(sys.client.mux, id) && Finished(sys.server.mux, id)
  {
  }

  // ----- Every run can be brought to an end -----

  /** Chunks queued for sending, per stream. */
  function Chunks(m: Mux): map<nat, nat> {
    map id | id in m.streams :: |m.streams[id].outbound|
  }

  /** As long as something is queued the scheduler has a stream to serve. */
  lemma {:induction false} SomeIsServed(m: Mux, id: nat)
    requires id in m.streams && m.streams[id].outbound != []
    ensures exists j :: Schedulable(m, j)
    decreases m.streams[id].priority
  {
    if Schedulable(m, id) {
    } else {
      var j :| j in m.streams && m.streams[j].outbound != [] && m.streams[j].priority < m.streams[id].priority;
      SomeIsServed(m, j);
    }
  }

  lemma {:induction false} PopTakesOne(m: Mux, id: nat)
    requires Schedulable(m, id)
    ensures Total(Chunks(PopOutbound(m, id).0)) == Total(Chunks(m)) - 1
  {
    var m' := PopOutbound(m, id).0;
    TotalUpdate(Chunks(m), id, |m'.streams[id].outbound|);
    assert Chunks(m') == Chunks(m)[id := |m'.streams[id].outbound|];
  }

  /** Events in which nobody sends anything new. */
  predicate Quiet(events: seq<Event>) {
    forall e :: e in events ==> !e.action.Send?
  }

  lemma {:induction false} QuietAct(p: Peer, q: Peer, a: Action)
    requires !a.Send?
    ensures var (p', q') := Act(p, q, a); p'.accepted == p.accepted && q'.accepted == q.accepted
  {
    hide OnFrame, PopOutbound, ReadInbound, OpenStream, Schedulable;
  }

  lemma {:induction false} QuietStep(window: nat, events: seq<Event>, more: seq<Event>, e: Event, byClient: bool)
    requires Quiet(more) && !e.action.Send?
    ensures Quiet([e] + more) && events + ([e] + more) == (events + [e]) + more
    ensures Exec(window, events + [e]) == Next(Exec(window, events), e)
    ensures Side(Exec(window, events + [e]), byClient).accepted == Side(Exec(window, events), byClient).accepted
  {
    hide Exec, Act;
    ExecAppend(window, events, e);
    var sys := Exec(window, events);
    QuietAct(Side(sys, e.byClient), Side(sys, !e.byClient), e.action);
  }

  /** These further events empty every queue of one side. */
  ghost predicate EmptyQueues(window: nat, events: seq<Event>, byClient: bool, more: seq<Event>) {
    var now, later := Side(Exec(window, events), byClient), Side(Exec(window, events + more), byClient);
    Quiet(more) && later.accepted == now.accepted && forall id :: View(later.mux, id).outbound == []
  }

  /** These further events empty the channel that leaves one side. */
  ghost predicate EmptyChannel(window: nat, events: seq<Event>, byClient: bool, more: seq<Event>) {
    var now, later := Side(Exec(window, events), byClient), Side(Exec(window, events + more), byClient);
    Quiet(more) && later.out == [] && later.mux == now.mux && later.accepted == now.accepted
  }

  lemma {:induction false} PopLeadsOn(window: nat, events: seq<Event>, byClient: bool, id: nat)
    requires Schedulable(Side(Exec(window, events), byClient).mux, id)
    ensures var next := events + [Event(byClient, Pop(id))];
            && Total(Chunks(Side(Exec(window, next), byClient).mux)) <
               Total(Chunks(Side(Exec(window, events), byClient).mux))
            && forall more :: EmptyQueues(window, next, byClient, more) ==>
                 EmptyQueues(window, events, byClient, [Event(byClient, Pop(id))] + more)
  {
    hide Exec, Schedulable, PopOutbound, View;
    var e := Event(byClient, Pop(id));
    QuietStep(window, events, [], e, byClient);
    PopTakesOne(Side(Exec(window, events), byClient).mux, id);
    forall more | EmptyQueues(window, events + [e], byClient, more)
      ensures EmptyQueues(window, events, byClient, [e] + more)
    {
      QuietStep(window, events, more, e, byClient);
    }
  }

  /** Popping goes on until nothing is queued. */
  lemma {:induction false} QueuesCanEmpty(window: nat, events: seq<Event>, byClient: bool)
    ensures exists more :: EmptyQueues(window, events, byClient, more)
    decreases Total(Chunks(Side(Exec(window, events), byClient).mux))
  {
    hide Exec, Schedulable;
    var m := Side(Exec(window, events), byClient).mux;
    if id :| id in m.streams && m.streams[id].outbound != [] {
      SomeIsServed(m, id);
      var j :| Schedulable(m, j);
      var e := Event(byClient, Pop(j));
      PopLeadsOn(window, events, byClient, j);
      QueuesCanEmpty(window, events + [e], byClient);
      var more :| EmptyQueues(window, events + [e], byClient, more);
      assert EmptyQueues(window, events, byClient, [e] + more);
    } else {
      assert events + [] == events;
      assert EmptyQueues(window, events, byClient, []);
    }
  }

  /** Delivering goes on until nothing is on the channel; the sender's side is not touched. */
  lemma {:induction false} ChannelCanEmpty(window: nat, events: seq<Event>, byClient: bool)
    ensures exists more :: EmptyChannel(window, events, byClient, more)
    decreases |Side(Exec(window, events), byClient).out|
  {
    hide Exec, OnFrame;
    var now := Side(Exec(window, events), byClient);
    if now.out == [] {
      assert events + [] == events;
      assert EmptyChannel(window, events, byClient, []);
    } else {
      var e := Event(!byClient, Deliver);
      QuietStep(window, events, [], e, byClient);
      assert Side(Exec(window, events + [e]), byClient) == now.(out := now.out[1..]);
      ChannelCanEmpty(window, events + [e], byClient);
      var more :| EmptyChannel(window, events + [e], byClient, more);
      QuietStep(window, events, more, e, byClient);
      assert EmptyChannel(window, events, byClient, [e] + more);
    }
  }

  /** One read then empties the receiver's buffer. */
  lemma {:induction false} ReadDrains(window: nat, events: seq<Event>, byClient: bool, id: nat)
    requires var p := Side(Exec(window, events), byClient); p.out == [] && View(p.mux, id).outbound == []
    ensures var e := Event(!byClient, Read(id));
            var sys, sys' := Exec(window, events), Exec(window, events + [e]);
            BytesAt(Side(sys', !byClient).read, id) == BytesAt(Side(sys, byClient).accepted, id)
  {
    hide Exec;
    var e := Event(!byClient, Read(id));
    QuietStep(window, events, [], e, byClient);
    DrainedMeansDelivered(window, events + [e], id);
  }

  /**
    From every state of every run there is a way on, without another send, after which the reader of
    a stream has everything its sender had submitted.
   */
  lemma {:induction false} EveryRunCanDrain(window: nat, events: seq<Event>, byClient: bool, id: nat)
    ensures exists more ::
              && Quiet(more)
              && BytesAt(Side(Exec(window, events + more), !byClient).read, id) ==
                 BytesAt(Side(Exec(window, events), byClient).accepted, id)
  {
    hide Exec, Act, View, DataFor;
    QueuesCanEmpty(window, events, byClient);
    var pops :| EmptyQueues(window, events, byClient, pops);
    ChannelCanEmpty(window, events + pops, byClient);
    var takes :| EmptyChannel(window, events + pops, byClient, takes);
    ReadDrains(window, events + pops + takes, byClient, id);
    var e := Event(!byClient, Read(id));
    var more := pops + takes + [e];
    assert events + more == events + pops + takes + [e];
    assert Quiet(more);
  }
}
