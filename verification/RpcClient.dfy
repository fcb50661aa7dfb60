/**
  The RPC client. Pending calls live in a table under a mutex; responses, sweeps and cancellations
  take promises out of the table under the mutex and fulfil them after releasing it, so several
  threads may hold promises at once. Each lock region, and each fulfilment, is one atomic step.
 */
module Rpc {
  import opened Common

  const ID_MAX: nat := 0xFFFF_FFFF

  datatype Stats = Stats(
    started: nat,
    matched: nat,
    timeouts: nat,
    cancellations: nat,
    sendFailures: nat,
    unmatched: nat)

  /** What the mutex protects. A pending call is its id and its deadline, 0 for none. */
  datatype Client = Client(next: nat, exhausted: bool, pending: map<nat, nat>, stats: Stats)

  function InitialClient(): Client {
    Client(1, false, map[], Stats(0, 0, 0, 0, 0, 0))
  }

  function DeadlineIn(timeoutMs: nat, now: nat): nat {
    if timeoutMs > 0 then now + timeoutMs else 0
  }

  predicate Expired(deadline: nat, now: nat) {
    deadline != 0 && now >= deadline
  }

  // ----- The lock regions -----

  /** Allocates an id and registers the call; id 0 means the ids have run out and nothing was registered. */
  function RegisterStep(c: Client, deadline: nat): (Client, nat) {
    if c.exhausted then (c, 0)
    else
      var id := c.next;
      (c.(next := if id == ID_MAX then id else id + 1,
          exhausted := id == ID_MAX,
          pending := c.pending[id := deadline],
          stats := c.stats.(started := c.stats.started + 1)), id)
  }

  /** The send of call `id` failed; whoever took the call out of the table first wins. */
  function SendFailed(c: Client, id: nat): (Client, bool) {
    if id !in c.pending then (c, false)
    else (c.(pending := c.pending - {id}, stats := c.stats.(sendFailures := c.stats.sendFailures + 1)), true)
  }

  function TakeMatch(c: Client, id: nat): (Client, bool) {
    if id !in c.pending then (c.(stats := c.stats.(unmatched := c.stats.unmatched + 1)), false)
    else (c.(pending := c.pending - {id}, stats := c.stats.(matched := c.stats.matched + 1)), true)
  }

  /** The clock is read anew for every entry of the table: what it showed when a sweep came to an entry. */
  type Readings = map<nat, nat>

  function At(clock: Readings, id: nat): nat {
    if id in clock then clock[id] else 0
  }

  predicate Overdue(pending: map<nat, nat>, clock: Readings, id: nat) {
    id in pending && Expired(pending[id], At(clock, id))
  }

  function ExpiredIds(c: Client, clock: Readings): set<nat> {
    set id | id in c.pending && Overdue(c.pending, clock, id)
  }

  /** These calls leave the table as timed out. */
  function WithoutExpired(c: Client, ids: set<nat>): Client {
    c.(pending := c.pending - ids, stats := c.stats.(timeouts := c.stats.timeouts + |ids|))
  }

  function TakeExpired(c: Client, clock: Readings): (Client, set<nat>) {
    (WithoutExpired(c, ExpiredIds(c, clock)), ExpiredIds(c, clock))
  }

  lemma {:induction false} OneMoreExpired(c: Client, ids: set<nat>, id: nat)
    requires id !in ids
    ensures WithoutExpired(WithoutExpired(c, ids), {id}) == WithoutExpired(c, ids + {id})
  {
    assert c.pending - ids - {id} == c.pending - (ids + {id});
    assert |ids + {id}| == |ids| + 1;
  }

  function IdSet(ids: seq<nat>): set<nat> {
    set id | id in ids
  }

  lemma {:induction false} IdSetAdd(ids: seq<nat>, id: nat)
    ensures IdSet(ids + [id]) == IdSet(ids) + {id}
  {
  }

  lemma {:induction false} NothingExpired(c: Client)
    ensures IdSet([]) == {} && WithoutExpired(c, {}) == c
  {
    assert c.pending - {} == c.pending;
  }

  lemma {:induction false} StillThere(c: Client, ids: set<nat>, clock: Readings, id: nat)
    requires id in c.pending && id !in ids
    ensures var now := WithoutExpired(c, ids);
            && id in now.pending
            && (Overdue(c.pending, clock, id) <==> now.pending[id] != 0 && At(clock, id) >= now.pending[id])
  {
  }

  function TakeAll(c: Client): (Client, set<nat>) {
    (c.(pending := map[], stats := c.stats.(cancellations := c.stats.cancellations + |c.pending|)), c.pending.Keys)
  }

  class RpcClient {
    var next: nat
    var exhausted: bool
    var pending: map<nat, nat>
    var stats: Stats

    ghost function State(): Client
      reads this
    {
      Client(next, exhausted, pending, stats)
    }

    constructor ()
      ensures State() == InitialClient()
    {
      next, exhausted := 1, false;
      pending := map[];
      stats := Stats(0, 0, 0, 0, 0, 0);
    }

    method NextId() returns (id: nat)
      modifies this`next, this`exhausted
      ensures old(exhausted) ==> id == 0 && next == old(next) && exhausted
      ensures !old(exhausted) ==> id == old(next)
      ensures !old(exhausted) ==> next == (if id == ID_MAX then id else id + 1) && exhausted == (id == ID_MAX)
    {
      if exhausted {
        return 0;
      }
      id := next;
      if id == ID_MAX {
        exhausted := true;
        return id;
      }
      next := next + 1;
    }

    /** First lock region of `call`. */
    method Register(timeoutMs: nat, now: nat) returns (id: nat)
      requires exhausted || next != 0
      modifies this
      ensures (State(), id) == RegisterStep(old(State()), DeadlineIn(timeoutMs, now))
    {
      id := NextId();
      if id == 0 {
        return;
      }
      var deadline := if timeoutMs > 0 then now + timeoutMs else 0;
      pending := pending[id := deadline];
      stats := stats.(started := stats.started + 1);
    }

    /** Second lock region of `call`, entered when the send failed. */
    method FailSend(id: nat) returns (failed: bool)
      modifies this
      ensures (State(), failed) == SendFailed(old(State()), id)
    {
      failed := id in pending;
      if failed {
        pending := pending - {id};
        stats := stats.(sendFailures := stats.sendFailures + 1);
      }
    }

    method OnResponse(id: nat) returns (matched: bool)
      modifies this
      ensures (State(), matched) == TakeMatch(old(State()), id)
    {
      if id !in pending {
        stats := stats.(unmatched := stats.unmatched + 1);
        return false;
      }
      pending := pending - {id};
      stats := stats.(matched := stats.matched + 1);
      return true;
    }

    method Expire(id: nat)
      requires id in pending
      modifies this
      ensures State() == WithoutExpired(old(State()), {id})
    {
      pending := pending - {id};
      stats := stats.(timeouts := stats.timeouts + 1);
    }

    /** Erases while iterating, one table entry at a time. */
    method SweepTimeouts(clock: Readings) returns (expired: seq<nat>)
      modifies this
      ensures (State(), IdSet(expired)) == TakeExpired(old(State()), clock)
      ensures |expired| == |ExpiredIds(old(State()), clock)|
    {
      hide IdSet, WithoutExpired, Overdue;
      expired := [];
      var todo := pending.Keys;
      assert IdSet([]) == {} && WithoutExpired(State(), {}) == State() by {
        NothingExpired(State());
      }
      while todo != {}
        invariant todo <= old(pending).Keys && |expired| == |IdSet(expired)|
        invariant State() == WithoutExpired(old(State()), IdSet(expired))
        invariant forall id :: id in IdSet(expired) <==>
                    id in old(pending) && id !in todo && Overdue(old(pending), clock, id)
        decreases |todo|
      {
        var id :| id in todo;
        todo := todo - {id};
        StillThere(old(State()), IdSet(expired), clock, id);
        if pending[id] != 0 && At(clock, id) >= pending[id] {
          Expire(id);
          OneMoreExpired(old(State()), IdSet(expired), id);
          IdSetAdd(expired, id);
          expired := expired + [id];
        }
      }
      assert IdSet(expired) == ExpiredIds(old(State()), clock);
    }

    method CancelAll() returns (all: set<nat>)
      modifies this
      ensures (State(), all) == TakeAll(old(State()))
    {
      all := pending.Keys;
      stats := stats.(cancellations := stats.cancellations + |pending|);
      pending := map[];
    }
  }

  // ----- Interleavings -----

  datatype Reply = Reply(status: nat, body: seq<Byte>)

  /** How a started call ended. */
  datatype Outcome = Answered(reply: Reply) | TimedOut | Cancelled(status: nat) | Unsent

  /**
    The client; the ids it gave out; the promises threads have taken out and hold; the promises
    already fulfilled; and, for reference, every outcome decided so far.
   */
  datatype World = World(
    client: Client,
    issued: seq<nat>,
    held: map<nat, Outcome>,
    resolved: map<nat, Outcome>,
    decided: map<nat, Outcome>)

  datatype Step =
    | Call(timeoutMs: nat, now: nat)
    | SendFails(id: nat)
    | Response(id: nat, reply: Reply)
    | Sweep(clock: Readings)
    | Cancel(status: nat)
    | Fulfil(id: nat)

  function Mark(ids: set<nat>, o: Outcome): map<nat, Outcome> {
    map id | id in ids :: o
  }

  function Hold(w: World, c: Client, ids: set<nat>, o: Outcome): World {
    w.(client := c, held := w.held + Mark(ids, o), decided := w.decided + Mark(ids, o))
  }

  function Do(w: World, s: Step): World {
    match s
    case Call(timeoutMs, now) =>
      var (c, id) := RegisterStep(w.client, DeadlineIn(timeoutMs, now));
      w.(client := c, issued := if id == 0 then w.issued else w.issued + [id])
    case SendFails(id) =>
      // Fulfilled while the mutex is still held.
      var (c, failed) := SendFailed(w.client, id);
      if failed then w.(client := c, resolved := w.resolved[id := Unsent], decided := w.decided + Mark({id}, Unsent))
      else w
    case Response(id, reply) =>
      var (c, matched) := TakeMatch(w.client, id);
      Hold(w, c, if matched then {id} else {}, Answered(reply))
    case Sweep(clock) =>
      var (c, ids) := TakeExpired(w.client, clock);
      Hold(w, c, ids, TimedOut)
    case Cancel(status) =>
      var (c, ids) := TakeAll(w.client);
      Hold(w, c, ids, Cancelled(status))
    case Fulfil(id) =>
      if id !in w.held then w
      else w.(held := w.held - {id}, resolved := w.resolved[id := w.held[id]])
  }

  function Exec(steps: seq<Step>): World {
    if steps == [] then World(InitialClient(), [], map[], map[], map[])
    else Do(Exec(steps[..|steps| - 1]), steps[|steps| - 1])
  }

  // ----- Invariants -----

  predicate Ascending(ids: seq<nat>) {
    forall i, j :: 0 <= i < j < |ids| ==> ids[i] < ids[j]
  }

  /** Ids are positive, ascending and below the next one, or the last one has been used. */
  ghost predicate IdsInv(w: World) {
    && Ascending(w.issued)
    && 1 <= w.client.next <= ID_MAX
    && (forall i :: 0 <= i < |w.issued| ==>
          1 <= w.issued[i] && (w.issued[i] < w.client.next || (w.client.exhausted && w.issued[i] == ID_MAX)))
  }

  /** Every started call is in exactly one place: pending, in a thread's hands, or fulfilled. */
  ghost predicate PlacesInv(w: World) {
    && (forall id :: id in w.issued <==> id in w.client.pending || id in w.decided)
    && (forall id :: id in w.client.pending ==> id !in w.decided)
    && (forall id :: id in w.decided <==> id in w.held || id in w.resolved)
    && (forall id :: id in w.held ==> id !in w.resolved && w.decided[id] == w.held[id])
    && (forall id :: id in w.resolved ==> w.decided[id] == w.resolved[id])
  }

  datatype Kind = KAnswered | KTimedOut | KCancelled | KUnsent

  function KindOf(o: Outcome): Kind {
    match o
    case Answered(_) => KAnswered
    case TimedOut => KTimedOut
    case Cancelled(_) => KCancelled
    case Unsent => KUnsent
  }

  /** The calls that ended in a given way. */
  ghost function IdsOf(d: map<nat, Outcome>, k: Kind): set<nat> {
    set id | id in d && KindOf(d[id]) == k
  }

  function Counter(s: Stats, k: Kind): nat {
    match k
    case KAnswered => s.matched
    case KTimedOut => s.timeouts
    case KCancelled => s.cancellations
    case KUnsent => s.sendFailures
  }

  /** Each counter counts the calls that ended that way. */
  ghost predicate CountsInv(w: World) {
    && w.client.stats.started == |w.issued|
    && forall k :: Counter(w.client.stats, k) == |IdsOf(w.decided, k)|
  }

  // ----- Every step keeps them -----

  lemma DoKeepsIds(w: World, s: Step)
    requires IdsInv(w)
    ensures IdsInv(Do(w, s))
  {
  }

  /** A new call never gets an id that was given out before. */
  lemma FreshId(w: World, timeoutMs: nat, now: nat)
    requires IdsInv(w) && PlacesInv(w) && !w.client.exhausted
    ensures var id := RegisterStep(w.client, DeadlineIn(timeoutMs, now)).1;
            id !in w.issued && id !in w.client.pending && id !in w.decided
  {
  }

  /** Taking calls out of the table into a thread's hands. */
  lemma HoldKeepsPlaces(w: World, c: Client, ids: set<nat>, o: Outcome)
    requires PlacesInv(w) && ids <= w.client.pending.Keys && c.pending == w.client.pending - ids
    ensures PlacesInv(Hold(w, c, ids, o))
  {
  }

  lemma FulfilKeepsPlaces(w: World, id: nat)
    requires PlacesInv(w)
    ensures PlacesInv(Do(w, Fulfil(id)))
  {
  }

  lemma SendFailsKeepsPlaces(w: World, id: nat)
    requires PlacesInv(w) && id in w.client.pending
    ensures PlacesInv(Do(w, SendFails(id)))
  {
  }

  lemma CallKeepsPlaces(w: World, timeoutMs: nat, now: nat)
    requires IdsInv(w) && PlacesInv(w) && !w.client.exhausted
    ensures PlacesInv(Do(w, Call(timeoutMs, now)))
  {
    FreshId(w, timeoutMs, now);
    assert Do(w, Call(timeoutMs, now)).issued == w.issued + [w.client.next];
  }

  lemma DoKeepsPlaces(w: World, s: Step)
    requires IdsInv(w) && PlacesInv(w)
    ensures PlacesInv(Do(w, s))
  {
    match s
    case Call(timeoutMs, now) =>
      if !w.client.exhausted {
        CallKeepsPlaces(w, timeoutMs, now);
      }
    case SendFails(id) =>
      if id in w.client.pending {
        SendFailsKeepsPlaces(w, id);
      }
    case Fulfil(id) => FulfilKeepsPlaces(w, id);
    case Response(id, reply) =>
      var (c, matched) := TakeMatch(w.client, id);
      HoldKeepsPlaces(w, c, if matched then {id} else {}, Answered(reply));
    case Sweep(clock) =>
      HoldKeepsPlaces(w, TakeExpired(w.client, clock).0, ExpiredIds(w.client, clock), TimedOut);
    case Cancel(status) =>
      assert w.client.pending - w.client.pending.Keys == map[];
      HoldKeepsPlaces(w, TakeAll(w.client).0, w.client.pending.Keys, Cancelled(status));
  }

  /** Deciding some more calls in one way adds exactly those. */
  lemma MarkCounts(d: map<nat, Outcome>, ids: set<nat>, o: Outcome, k: Kind)
    requires forall id :: id in ids ==> id !in d
    ensures |IdsOf(d + Mark(ids, o), k)| == |IdsOf(d, k)| + if KindOf(o) == k then |ids| else 0
  {
    var before, after := IdsOf(d, k), IdsOf(d + Mark(ids, o), k);
    if KindOf(o) == k {
      assert after == before + ids;
    } else {
      assert after == before;
    }
  }

  lemma HoldKeepsCounts(w: World, c: Client, ids: set<nat>, o: Outcome)
    requires PlacesInv(w) && CountsInv(w) && ids <= w.client.pending.Keys
    requires c.stats.started == w.client.stats.started
    requires forall k :: Counter(c.stats, k) == Counter(w.client.stats, k) + if KindOf(o) == k then |ids| else 0
    ensures CountsInv(Hold(w, c, ids, o))
  {
    forall k
      ensures Counter(c.stats, k) == |IdsOf(w.decided + Mark(ids, o), k)|
    {
      MarkCounts(w.decided, ids, o, k);
    }
  }

  lemma SendFailsKeepsCounts(w: World, id: nat)
    requires PlacesInv(w) && CountsInv(w) && id in w.client.pending
    ensures CountsInv(Do(w, SendFails(id)))
  {
    HoldKeepsCounts(w, SendFailed(w.client, id).0, {id}, Unsent);
  }

  lemma ResponseKeepsCounts(w: World, id: nat, reply: Reply)
    requires PlacesInv(w) && CountsInv(w)
    ensures CountsInv(Do(w, Response(id, reply)))
  {
    var (c, matched) := TakeMatch(w.client, id);
    HoldKeepsCounts(w, c, if matched then {id} else {}, Answered(reply));
  }

  lemma CallKeepsCounts(w: World, timeoutMs: nat, now: nat)
    requires IdsInv(w) && CountsInv(w)
    ensures CountsInv(Do(w, Call(timeoutMs, now)))
  {
    hide IdsOf;
    var w' := Do(w, Call(timeoutMs, now));
    forall k
      ensures Counter(w'.client.stats, k) == |IdsOf(w'.decided, k)|
    {
      assert Counter(w.client.stats, k) == |IdsOf(w.decided, k)|;
    }
  }

  lemma SweepKeepsCounts(w: World, clock: Readings)
    requires PlacesInv(w) && CountsInv(w)
    ensures CountsInv(Do(w, Sweep(clock)))
  {
    hide PlacesInv, CountsInv, Overdue;
    HoldKeepsCounts(w, TakeExpired(w.client, clock).0, ExpiredIds(w.client, clock), TimedOut);
  }

  lemma CancelKeepsCounts(w: World, status: nat)
    requires PlacesInv(w) && CountsInv(w)
    ensures CountsInv(Do(w, Cancel(status)))
  {
    hide PlacesInv, CountsInv;
    assert |w.client.pending.Keys| == |w.client.pending|;
    HoldKeepsCounts(w, TakeAll(w.client).0, w.client.pending.Keys, Cancelled(status));
  }

  lemma DoKeepsCounts(w: World, s: Step)
    requires IdsInv(w) && PlacesInv(w) && CountsInv(w)
    ensures CountsInv(Do(w, s))
  {
    match s
    case Call(timeoutMs, now) => CallKeepsCounts(w, timeoutMs, now);
    case SendFails(id) =>
      if id in w.client.pending {
        SendFailsKeepsCounts(w, id);
      }
    case Response(id, reply) => ResponseKeepsCounts(w, id, reply);
    case Sweep(clock) => SweepKeepsCounts(w, clock);
    case Cancel(status) => CancelKeepsCounts(w, status);
    case Fulfil(_) =>
  }

  lemma {:induction false} RunsKeepInv(steps: seq<Step>)
    ensures IdsInv(Exec(steps)) && PlacesInv(Exec(steps)) && CountsInv(Exec(steps))
  {
    if steps == [] {
      forall k
        ensures IdsOf(map[], k) == {}
      {
      }
    } else {
      var before, s := Exec(steps[..|steps| - 1]), steps[|steps| - 1];
      RunsKeepInv(steps[..|steps| - 1]);
      DoKeepsIds(before, s);
      DoKeepsPlaces(before, s);
      DoKeepsCounts(before, s);
    }
  }

  // ----- Theorems over every interleaving -----

  lemma {:induction false} AscendingSize(ids: seq<nat>)
    requires Ascending(ids)
    ensures |IdSet(ids)| == |ids|
  {
    if ids == [] {
    } else {
      var before, last := ids[..|ids| - 1], ids[|ids| - 1];
      AscendingSize(before);
      assert last !in IdSet(before);
      assert IdSet(ids) == IdSet(before) + {last};
    }
  }

  lemma KindsPartition(d: map<nat, Outcome>)
    ensures |d| == |IdsOf(d, KAnswered)| + |IdsOf(d, KTimedOut)| + |IdsOf(d, KCancelled)| + |IdsOf(d, KUnsent)|
  {
    var a, b, c, e := IdsOf(d, KAnswered), IdsOf(d, KTimedOut), IdsOf(d, KCancelled), IdsOf(d, KUnsent);
    forall id | id in d
      ensures id in a + b + c + e
    {
      assert KindOf(d[id]).KAnswered? || KindOf(d[id]).KTimedOut? || KindOf(d[id]).KCancelled? || KindOf(d[id]).KUnsent?;
    }
    assert d.Keys == a + b + c + e;
    assert |d| == |d.Keys|;
  }

  /** The counters add up: every started call is pending or has ended in exactly one way. */
  lemma {:induction false} CallsAreAccountedFor(steps: seq<Step>)
    ensures var w := Exec(steps);
            var s := w.client.stats;
            s.started == s.matched + s.timeouts + s.cancellations + s.sendFailures + |w.client.pending|
  {
    RunsKeepInv(steps);
    var w := Exec(steps);
    KindsPartition(w.decided);
    AscendingSize(w.issued);
    SplitSize(w);
    assert Counter(w.client.stats, KAnswered) == |IdsOf(w.decided, KAnswered)|;
    assert Counter(w.client.stats, KTimedOut) == |IdsOf(w.decided, KTimedOut)|;
    assert Counter(w.client.stats, KCancelled) == |IdsOf(w.decided, KCancelled)|;
    assert Counter(w.client.stats, KUnsent) == |IdsOf(w.decided, KUnsent)|;
  }

  lemma SplitSize(w: World)
    requires PlacesInv(w)
    ensures |IdSet(w.issued)| == |w.client.pending| + |w.decided|
  {
    assert IdSet(w.issued) == w.client.pending.Keys + w.decided.Keys;
    assert |w.client.pending.Keys| == |w.client.pending| && |w.decided.Keys| == |w.decided|;
  }

  /** A promise is fulfilled at most once, by its only holder, and keeps its value afterwards. */
  lemma {:induction false} FulfilledOnce(steps: seq<Step>, s: Step)
    ensures var w, w' := Exec(steps), Exec(steps + [s]);
            && (forall id :: id in w.resolved ==> id in w'.resolved && w'.resolved[id] == w.resolved[id])
            && (forall id :: id in w'.resolved && id !in w.resolved ==> id in w.issued)
            && (s.Fulfil? && s.id in w.held ==> s.id !in w.resolved && w'.resolved[s.id] == w.held[s.id])
  {
    RunsKeepInv(steps);
    assert (steps + [s])[..|steps|] == steps;
    DoResolvesOnce(Exec(steps), s);
  }

  lemma DoResolvesOnce(w: World, s: Step)
    requires PlacesInv(w)
    ensures var w' := Do(w, s);
            && (forall id :: id in w.resolved ==> id in w'.resolved && w'.resolved[id] == w.resolved[id])
            && (forall id :: id in w'.resolved && id !in w.resolved ==> id in w.issued)
            && (s.Fulfil? && s.id in w.held ==> s.id !in w.resolved && w'.resolved[s.id] == w.held[s.id])
  {
  }

  /** A response decides only the call whose id it carries: an answered call was answered by its own response. */
  lemma {:induction false} AnswersMatchIds(steps: seq<Step>, id: nat)
    requires id in Exec(steps).decided && Exec(steps).decided[id].Answered?
    ensures Response(id, Exec(steps).decided[id].reply) in steps
  {
    var before, s := Exec(steps[..|steps| - 1]), steps[|steps| - 1];
    RunsKeepInv(steps[..|steps| - 1]);
    DoDecidesOnce(before, s, id);
    if id in before.decided {
      AnswersMatchIds(steps[..|steps| - 1], id);
    }
  }

  /** An outcome is decided by one step and never revised. */
  lemma DoDecidesOnce(w: World, s: Step, id: nat)
    requires PlacesInv(w)
    ensures var w' := Do(w, s);
            && (id in w.decided ==> id in w'.decided && w'.decided[id] == w.decided[id])
            && (id !in w.decided && id in w'.decided ==>
                  && id in w.client.pending
                  && (w'.decided[id].Answered? ==> s == Response(id, w'.decided[id].reply))
                  && (w'.decided[id].TimedOut? ==> s.Sweep? && Expired(w.client.pending[id], At(s.clock, id))))
  {
  }

  /** A timed-out call was so before the last step, or that step is a sweep that found it past its deadline. */
  lemma {:induction false} LastDecides(steps: seq<Step>, id: nat)
    requires id in Exec(steps).decided && Exec(steps).decided[id].TimedOut?
    ensures steps != []
    ensures var before, s := Exec(steps[..|steps| - 1]), steps[|steps| - 1];
            if id in before.decided then before.decided[id].TimedOut?
            else id in before.client.pending && s.Sweep? && Expired(before.client.pending[id], At(s.clock, id))
  {
    var before, s := Exec(steps[..|steps| - 1]), steps[|steps| - 1];
    RunsKeepInv(steps[..|steps| - 1]);
    hide Do, IdsInv, PlacesInv, CountsInv;
    DoDecidesOnce(before, s, id);
  }

  /** A call times out only if it was made with a timeout, and only at a sweep that reaches it at or after its deadline. */
  lemma {:induction false} NoEarlyTimeout(steps: seq<Step>, id: nat) returns (k: nat, j: nat)
    requires id in Exec(steps).decided && Exec(steps).decided[id].TimedOut?
    ensures k < j < |steps| && steps[k].Call? && steps[j].Sweep?
    ensures steps[k].timeoutMs > 0 && At(steps[j].clock, id) >= steps[k].now + steps[k].timeoutMs
    ensures RegisterStep(Exec(steps[..k]).client, DeadlineIn(steps[k].timeoutMs, steps[k].now)).1 == id
  {
    hide Exec, Do, RegisterStep;
    LastDecides(steps, id);
    var last := |steps| - 1;
    if id in Exec(steps[..last]).decided {
      k, j := NoEarlyTimeout(steps[..last], id);
    } else {
      k := DeadlineOrigin(steps[..last], id);
      j := last;
    }
    assert steps[..last][..k] == steps[..k];
  }

  /** A call enters the table with its deadline and keeps it there. */
  lemma PendingStep(w: World, s: Step, id: nat)
    requires id in Do(w, s).client.pending
    ensures var deadline := Do(w, s).client.pending[id];
            || (s.Call? && !w.client.exhausted && w.client.next == id && deadline == DeadlineIn(s.timeoutMs, s.now))
            || (id in w.client.pending && deadline == w.client.pending[id])
  {
  }

  /** Where a pending call's deadline comes from. */
  lemma {:induction false} DeadlineOrigin(steps: seq<Step>, id: nat) returns (k: nat)
    requires id in Exec(steps).client.pending
    ensures k < |steps| && steps[k].Call?
    ensures Exec(steps).client.pending[id] == DeadlineIn(steps[k].timeoutMs, steps[k].now)
    ensures RegisterStep(Exec(steps[..k]).client, DeadlineIn(steps[k].timeoutMs, steps[k].now)).1 == id
  {
    k := |steps| - 1;
    var before := Exec(steps[..k]);
    PendingStep(before, steps[k], id);
    if id in before.client.pending && before.client.pending[id] == Exec(steps).client.pending[id] {
      var last := k;
      k := DeadlineOrigin(steps[..last], id);
      assert steps[..last][..k] == steps[..k];
    }
  }

  // ----- Every call can be ended -----

  lemma {:induction false} ExecAppend(steps: seq<Step>, s: Step)
    ensures Exec(steps + [s]) == Do(Exec(steps), s)
  {
    assert (steps + [s])[..|steps|] == steps;
  }

  /** Fulfilling what is held, one promise after the other, until nothing is. */
  lemma {:induction false} HeldCanBeFulfilled(steps: seq<Step>) returns (more: seq<Step>)
    ensures forall s :: s in more ==> s.Fulfil?
    ensures var w, w' := Exec(steps), Exec(steps + more);
            w'.held == map[] && w'.client == w.client && w'.issued == w.issued
    decreases |Exec(steps).held|
  {
    var w := Exec(steps);
    if w.held == map[] {
      more := [];
      assert steps + more == steps;
    } else {
      var id :| id in w.held;
      ExecAppend(steps, Fulfil(id));
      assert |w.held - {id}| < |w.held| by {
        SmallerWithout(w.held, id);
      }
      var rest := HeldCanBeFulfilled(steps + [Fulfil(id)]);
      more := [Fulfil(id)] + rest;
      assert steps + more == steps + [Fulfil(id)] + rest;
    }
  }

  lemma {:induction false} SmallerWithout(m: map<nat, Outcome>, id: nat)
    requires id in m
    ensures |m - {id}| < |m|
  {
    assert (m - {id}).Keys == m.Keys - {id};
    assert |m - {id}| == |(m - {id}).Keys| && |m| == |m.Keys|;
  }

  /**
    From every state, cancelling and then fulfilling what is held, by this call or an earlier one,
    leaves every call ever started resolved and none pending.
   */
  lemma {:induction false} CancelEndsEveryCall(steps: seq<Step>, status: nat)
    ensures exists more: seq<Step> ::
              && (forall s :: s in more ==> s.Fulfil?)
              && var w := Exec(steps + [Cancel(status)] + more);
                 && w.client.pending == map[] && w.held == map[]
                 && w.issued == Exec(steps).issued && forall id :: id in w.issued ==> id in w.resolved
  {
    ExecAppend(steps, Cancel(status));
    var w := Exec(steps + [Cancel(status)]);
    assert w.client.pending == map[] && w.issued == Exec(steps).issued;
    hide Exec, Do;
    var more := HeldCanBeFulfilled(steps + [Cancel(status)]);
    RunsKeepInv(steps + [Cancel(status)] + more);
  }
}
