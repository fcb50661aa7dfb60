/**
  The broker under concurrent calls. A publish takes two locks one after the other, first to match
  the index and then to store and deliver; a subscribe inserts into the index and then scans the
  retained messages. Between the two regions of a call any other region may come.
 */
module BrokerRuns {
  import opened Common
  import opened Topic
  import opened PubSub

  /** The index, the retained messages, and the subscribers that publishes under way have matched. */
  datatype Broker = Broker(subs: set<(string, nat)>, retained: map<string, seq<Byte>>, matched: map<nat, set<nat>>)

  /** One lock region of a call whose names are valid and that access control allows. */
  datatype Region =
    | Match(call: nat, topic: string)
    | Store(call: nat, topic: string, payload: seq<Byte>, retain: bool)
    | Insert(id: nat, filter: string)
    | Scan(id: nat, filter: string)
    | Remove(id: nat, filter: string)
    | Drop(id: nat)

  function After(b: Broker, r: Region): Broker {
    match r
    case Match(call, topic) => b.(matched := b.matched[call := Recipients(b.subs, topic)])
    case Store(_, topic, payload, retain) => if retain then b.(retained := b.retained[topic := payload]) else b
    case Insert(id, filter) => b.(subs := b.subs + {(filter, id)})
    case Scan(_, _) => b
    case Remove(id, filter) => b.(subs := b.subs - {(filter, id)})
    case Drop(id) => b.(subs := set s | s in b.subs && s.1 != id)
  }

  /** The deliveries a region hands to its caller. */
  predicate Hands(b: Broker, r: Region, d: Delivery) {
    match r
    case Store(call, topic, payload, _) =>
      call in b.matched && d.subscriber in b.matched[call] && d == Delivery(d.subscriber, topic, payload, false)
    case Scan(id, filter) =>
      d.topic in b.retained && Replayed(filter, d.topic) && d == Delivery(id, d.topic, b.retained[d.topic], true)
    case _ => false
  }

  function StateAt(b: Broker, regions: seq<Region>, k: nat): Broker
    requires k <= |regions|
  {
    if k == 0 then b else After(StateAt(b, regions, k - 1), regions[k - 1])
  }

  /** Some region of the run hands out this delivery. */
  ghost predicate Handed(b: Broker, regions: seq<Region>, d: Delivery) {
    exists k :: 0 <= k < |regions| && Hands(StateAt(b, regions, k), regions[k], d)
  }

  // ----- What is retained, and who is matched, at any point of any run -----

  predicate Keeps(r: Region, topic: string) {
    r.Store? && r.retain && r.topic == topic
  }

  /** The last region before a point of the run that stores a retained message on the topic. */
  function LastStore(regions: seq<Region>, k: nat, topic: string): (t: Option<nat>)
    requires k <= |regions|
    ensures t.Some? ==> t.value < k && Keeps(regions[t.value], topic)
    ensures forall j :: 0 <= j < k && Keeps(regions[j], topic) ==> t.Some? && j <= t.value
  {
    if k == 0 then None else if Keeps(regions[k - 1], topic) then Some(k - 1) else LastStore(regions, k - 1, topic)
  }

  /** The payload of that store, or what was retained when the run began. */
  function RetainedAt(b: Broker, regions: seq<Region>, k: nat, topic: string): Option<seq<Byte>>
    requires k <= |regions|
  {
    var t := LastStore(regions, k, topic);
    if t.Some? then Some(regions[t.value].payload)
    else if topic in b.retained then Some(b.retained[topic])
    else None
  }

  lemma {:induction false} RetainedIsLast(b: Broker, regions: seq<Region>, k: nat, topic: string)
    requires k <= |regions|
    ensures var now := StateAt(b, regions, k).retained;
            RetainedAt(b, regions, k, topic) == if topic in now then Some(now[topic]) else None
  {
    hide Recipients;
    if k == 0 {
    } else {
      RetainedIsLast(b, regions, k - 1, topic);
    }
  }

  /** Between its two regions a publish keeps the subscribers it has matched. */
  lemma {:induction false} MatchedStays(b: Broker, regions: seq<Region>, call: nat, topic: string, m: nat, k: nat)
    requires m < k <= |regions| && regions[m] == Match(call, topic)
    requires forall j :: m < j < k && regions[j].Match? ==> regions[j].call != call
    ensures var now := StateAt(b, regions, k).matched;
            call in now && now[call] == Recipients(StateAt(b, regions, m).subs, topic)
  {
    hide Recipients;
    if k == m + 1 {
    } else {
      MatchedStays(b, regions, call, topic, m, k - 1);
    }
  }

  predicate Touches(r: Region, id: nat, filter: string) {
    ((r.Insert? || r.Remove?) && r.id == id && r.filter == filter) || (r.Drop? && r.id == id)
  }

  /** A pair that only one insertion concerns is in force from then on. */
  lemma {:induction false} PairInForce(b: Broker, regions: seq<Region>, id: nat, filter: string, i: nat, k: nat)
    requires i < |regions| && k <= |regions| && regions[i] == Insert(id, filter) && (filter, id) !in b.subs
    requires forall j :: 0 <= j < |regions| && j != i ==> !Touches(regions[j], id, filter)
    ensures (filter, id) in StateAt(b, regions, k).subs <==> i < k
  {
    hide Recipients;
    if k == 0 {
    } else {
      PairInForce(b, regions, id, filter, i, k - 1);
    }
  }

  // ----- One publish and one subscribe among any other calls -----

  /** Where the two regions of the publish and of the subscribe come in a run. */
  datatype Places = Places(lookup: nat, store: nat, insert: nat, scan: nat)

  datatype Meeting = Meeting(call: nat, topic: string, payload: seq<Byte>, id: nat, filter: string)

  /**
    A retaining publish and a subscribe take place. Anything else may: publishes on the same topic and
    other filters of the same subscriber included; only the subscribed pair is left alone.
   */
  ghost predicate Meets(b: Broker, regions: seq<Region>, x: Meeting, p: Places) {
    && p.lookup < p.store < |regions| && p.insert < p.scan < |regions|
    && regions[p.lookup] == Match(x.call, x.topic) && regions[p.store] == Store(x.call, x.topic, x.payload, true)
    && regions[p.insert] == Insert(x.id, x.filter) && regions[p.scan] == Scan(x.id, x.filter)
    && (forall k :: p.lookup < k < p.store && regions[k].Match? ==> regions[k].call != x.call)
    && (forall k :: 0 <= k < |regions| && k != p.insert ==> !Touches(regions[k], x.id, x.filter))
    && (x.filter, x.id) !in b.subs
  }

  /** The subscriber has another filter in force that matches. */
  ghost predicate OtherRoute(subs: set<(string, nat)>, x: Meeting) {
    exists f :: f != x.filter && (f, x.id) in subs && Routed(f, x.topic)
  }

  lemma {:induction false} RecipientIff(subs: set<(string, nat)>, x: Meeting)
    ensures x.id in Recipients(subs, x.topic) <==>
            ((x.filter, x.id) in subs && Routed(x.filter, x.topic)) || OtherRoute(subs, x)
  {
    hide Routed;
    if (x.filter, x.id) in subs && Routed(x.filter, x.topic) {
      var s := (x.filter, x.id);
      assert s in subs && Routed(s.0, x.topic) && s.1 == x.id;
    }
    if OtherRoute(subs, x) {
      var f :| f != x.filter && (f, x.id) in subs && Routed(f, x.topic);
      var s := (f, x.id);
      assert s in subs && Routed(s.0, x.topic) && s.1 == x.id;
    }
  }

  function Live(x: Meeting): Delivery {
    Delivery(x.id, x.topic, x.payload, false)
  }

  function Replay(x: Meeting, payload: seq<Byte>): Delivery {
    Delivery(x.id, x.topic, payload, true)
  }

  /** The publish hands the subscriber its message. */
  ghost predicate HandsLive(b: Broker, regions: seq<Region>, x: Meeting, p: Places)
    requires p.store < |regions|
  {
    Hands(StateAt(b, regions, p.store), regions[p.store], Live(x))
  }

  /** The subscribe hands the subscriber this message on the topic. */
  ghost predicate HandsReplay(b: Broker, regions: seq<Region>, x: Meeting, p: Places, payload: seq<Byte>)
    requires p.scan < |regions|
  {
    Hands(StateAt(b, regions, p.scan), regions[p.scan], Replay(x, payload))
  }

  /**
    The publish reaches the subscriber exactly if the subscribe's insertion comes before its match and
    the filter matches, or another filter of the subscriber does. The subscribe replays on the topic
    exactly what the last store before its scan retained, if the filter matches.
   */
  lemma {:induction false} HandedIff(b: Broker, regions: seq<Region>, x: Meeting, p: Places, payload: seq<Byte>)
    requires Meets(b, regions, x, p)
    ensures HandsLive(b, regions, x, p) <==>
            (p.insert < p.lookup && Routed(x.filter, x.topic)) || OtherRoute(StateAt(b, regions, p.lookup).subs, x)
    ensures HandsReplay(b, regions, x, p, payload) <==>
            Replayed(x.filter, x.topic) && RetainedAt(b, regions, p.scan, x.topic) == Some(payload)
  {
    hide Routed, Replayed, StateAt, RetainedAt, OtherRoute, Recipients;
    MatchedStays(b, regions, x.call, x.topic, p.lookup, p.store);
    PairInForce(b, regions, x.id, x.filter, p.insert, p.lookup);
    RecipientIff(StateAt(b, regions, p.lookup).subs, x);
    RetainedIsLast(b, regions, p.scan, x.topic);
  }

  /** The replay is of this publish's message or of a later one on the topic. */
  predicate ReplayIsCurrent(regions: seq<Region>, x: Meeting, p: Places)
    requires p.scan <= |regions|
  {
    var t := LastStore(regions, p.scan, x.topic);
    t.Some? && t.value >= p.store
  }

  /**
    A filter that matches both ways. The subscriber gets neither the message nor a later one retained
    on the topic exactly if the whole subscribe comes between the two regions of the publish and no
    other filter helps. It gets the message twice exactly if the publish comes before the scan, reaches
    the subscriber live, and nothing later is stored on the topic before the scan.
   */
  lemma {:induction false} LostIffSubscribeInside(b: Broker, regions: seq<Region>, x: Meeting, p: Places)
    requires Meets(b, regions, x, p) && ValidFilter(x.filter) && ValidPublish(x.topic)
    requires Replayed(x.filter, x.topic)
    ensures var other := OtherRoute(StateAt(b, regions, p.lookup).subs, x);
            && (!HandsLive(b, regions, x, p) && !ReplayIsCurrent(regions, x, p) <==>
                  p.lookup < p.insert && p.scan < p.store && !other)
            && (HandsLive(b, regions, x, p) && LastStore(regions, p.scan, x.topic) == Some(p.store) <==>
                  && (p.insert < p.lookup || other) && p.store < p.scan
                  && forall k :: p.store < k < p.scan ==> !Keeps(regions[k], x.topic))
    ensures p.store < p.scan && (forall k :: p.store < k < p.scan ==> !Keeps(regions[k], x.topic)) ==>
              HandsReplay(b, regions, x, p, x.payload)
  {
    hide HandsLive, HandsReplay, StateAt, OtherRoute, Routed, Replayed, ValidFilter, ValidPublish;
    HandedIff(b, regions, x, p, x.payload);
    RetainedDiffersFromLive(x.filter, x.topic);
    assert Keeps(regions[p.store], x.topic);
  }

  /** Such a run, for any filter and topic: the message is retained, and its subscriber has not seen it. */
  lemma {:induction false} MessageCanBeLost(x: Meeting)
    ensures var b := Broker({}, map[], map[]);
            var regions := [Match(x.call, x.topic), Insert(x.id, x.filter), Scan(x.id, x.filter),
                            Store(x.call, x.topic, x.payload, true)];
            && !Handed(b, regions, Live(x)) && !Handed(b, regions, Replay(x, x.payload))
            && StateAt(b, regions, 4).retained == map[x.topic := x.payload]
            && StateAt(b, regions, 4).subs == {(x.filter, x.id)}
  {
    var b := Broker({}, map[], map[]);
    var regions := [Match(x.call, x.topic), Insert(x.id, x.filter), Scan(x.id, x.filter),
                    Store(x.call, x.topic, x.payload, true)];
    var s1 := After(b, regions[0]);
    assert StateAt(b, regions, 1) == s1;
    assert StateAt(b, regions, 2) == After(s1, regions[1]);
    assert StateAt(b, regions, 3) == StateAt(b, regions, 2);
    assert s1.matched[x.call] == {};
  }
}
