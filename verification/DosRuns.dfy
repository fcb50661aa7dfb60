/**
  One address of the connection guard over time, beside the connections it stands for: the guard
  remembers one time an address, the time at which the first of its half-open connections came.
 */
module DosRuns {
  import opened Common
  import opened Dos

  /** The guard's state of the address and the times its half-open connections came, oldest first. */
  datatype Track = Track(state: IpState, pending: seq<nat>)

  /** A promote and a release are about one of the pending connections, as the caller knows. */
  datatype Step = Admit(now: nat) | Promote(which: nat) | Release(which: nat) | Sweep(now: nat)

  function Without(times: seq<nat>, k: nat): seq<nat>
    requires k < |times|
  {
    times[..k] + times[k + 1..]
  }

  /** A promote or release names a pending connection if there is one to lose. */
  predicate Sensible(t: Track, s: Step) {
    match s
    case Promote(which) => t.pending != [] ==> which < |t.pending|
    case Release(which) => t.state.established == 0 && t.pending != [] ==> which < |t.pending|
    case _ => true
  }

  function After(t: Track, s: Step, timeoutMs: nat): Track
    requires Sensible(t, s)
  {
    match s
    case Admit(now) => Track(Admitted(t.state, now), t.pending + [now])
    case Promote(which) => Track(Promoted(t.state), if t.pending == [] then [] else Without(t.pending, which))
    case Release(which) =>
      Track(Released(t.state),
            if t.state.established > 0 || t.pending == [] then t.pending else Without(t.pending, which))
    case Sweep(now) =>
      var swept := Swept(t.state, now, timeoutMs);
      Track(swept, if swept == t.state then t.pending else [])
  }

  /** The clock does not go backwards, and steps are about pending connections. */
  predicate Possible(t: Track, clock: nat, steps: seq<Step>, timeoutMs: nat)
    decreases |steps|
  {
    steps == [] ||
    var s := steps[0];
    && Sensible(t, s)
    && (s.Admit? || s.Sweep? ==> clock <= s.now < U64_LIMIT)
    && Possible(After(t, s, timeoutMs), if s.Admit? || s.Sweep? then s.now else clock, steps[1..], timeoutMs)
  }

  function Last(t: Track, steps: seq<Step>, timeoutMs: nat, clock: nat): (Track, nat)
    requires Possible(t, clock, steps, timeoutMs)
    decreases |steps|
  {
    if steps == [] then (t, clock)
    else
      var s := steps[0];
      Last(After(t, s, timeoutMs), steps[1..], timeoutMs, if s.Admit? || s.Sweep? then s.now else clock)
  }

  /** As many connections are pending as the guard counts; none came before the time it remembers. */
  ghost predicate Consistent(t: Track, clock: nat) {
    && t.state.halfOpen == |t.pending|
    && (forall i, j :: 0 <= i <= j < |t.pending| ==> t.pending[i] <= t.pending[j])
    && (forall i :: 0 <= i < |t.pending| ==> t.state.oldestHalfOpenMs <= t.pending[i] <= clock)
    && clock < U64_LIMIT
  }

  lemma {:induction false} WithoutAt(times: seq<nat>, k: nat)
    requires k < |times|
    ensures |Without(times, k)| == |times| - 1
    ensures forall i :: 0 <= i < |times| - 1 ==> Without(times, k)[i] == times[if i < k then i else i + 1]
  {
  }

  lemma {:induction false} OneLessKeeps(times: seq<nat>, k: nat, low: nat, clock: nat)
    requires k < |times| && (forall i, j :: 0 <= i <= j < |times| ==> times[i] <= times[j])
    requires forall i :: 0 <= i < |times| ==> low <= times[i] <= clock
    ensures var less := Without(times, k);
            && |less| == |times| - 1 && (forall i, j :: 0 <= i <= j < |less| ==> less[i] <= less[j])
            && forall i :: 0 <= i < |less| ==> low <= less[i] <= clock
  {
    hide Without;
    WithoutAt(times, k);
  }

  lemma {:induction false} AdmitKeeps(t: Track, clock: nat, now: nat, timeoutMs: nat)
    requires Consistent(t, clock) && clock <= now < U64_LIMIT
    ensures Consistent(After(t, Admit(now), timeoutMs), now)
  {
    assert t.pending != [] ==> t.state.oldestHalfOpenMs <= t.pending[0] <= clock;
  }

  lemma {:induction false} StepKeeps(t: Track, clock: nat, s: Step, timeoutMs: nat)
    requires Consistent(t, clock) && Sensible(t, s) && (s.Admit? || s.Sweep? ==> clock <= s.now < U64_LIMIT)
    ensures Consistent(After(t, s, timeoutMs), if s.Admit? || s.Sweep? then s.now else clock)
  {
    hide Elapsed, Without;
    match s
    case Promote(which) =>
      if t.pending != [] {
        OneLessKeeps(t.pending, which, t.state.oldestHalfOpenMs, clock);
      }
    case Release(which) =>
      if t.state.established == 0 && t.pending != [] {
        OneLessKeeps(t.pending, which, t.state.oldestHalfOpenMs, clock);
      }
    case Admit(now) => AdmitKeeps(t, clock, now, timeoutMs);
    case Sweep(_) =>
  }

  lemma {:induction false} RunsKeep(t: Track, clock: nat, steps: seq<Step>, timeoutMs: nat)
    requires Consistent(t, clock) && Possible(t, clock, steps, timeoutMs)
    ensures Consistent(Last(t, steps, timeoutMs, clock).0, Last(t, steps, timeoutMs, clock).1)
    decreases |steps|
  {
    hide Consistent, After;
    if steps == [] {
    } else {
      var s := steps[0];
      StepKeeps(t, clock, s, timeoutMs);
      RunsKeep(After(t, s, timeoutMs), if s.Admit? || s.Sweep? then s.now else clock, steps[1..], timeoutMs);
    }
  }

  /** A half-open connection that came at this time is over its timeout. */
  predicate Stale(since: nat, now: nat, timeoutMs: nat) {
    now - since > timeoutMs
  }

  /**
    In every run, a sweep drops the half-open connections of the address if one of them is over its
    timeout; and it drops them although none is exactly if the time remembered is over the timeout
    while the oldest of them is not. Then the connection that set that time is no longer among them.
   */
  lemma {:induction false} SweepIsEarlyIff(steps: seq<Step>, now: nat, timeoutMs: nat)
    requires Possible(Track(IpState(0, 0, 0), []), 0, steps, timeoutMs)
    requires var (t, clock) := Last(Track(IpState(0, 0, 0), []), steps, timeoutMs, 0);
             clock <= now < U64_LIMIT && t.pending != []
    ensures var t := Last(Track(IpState(0, 0, 0), []), steps, timeoutMs, 0).0;
            var dropped := After(t, Sweep(now), timeoutMs).pending == [];
            var due := exists i :: 0 <= i < |t.pending| && Stale(t.pending[i], now, timeoutMs);
            && (due <==> Stale(t.pending[0], now, timeoutMs))
            && (due ==> dropped)
            && (dropped && !due <==>
                  Stale(t.state.oldestHalfOpenMs, now, timeoutMs) && !Stale(t.pending[0], now, timeoutMs))
            && (dropped && !due ==> t.state.oldestHalfOpenMs !in t.pending)
  {
    hide After, Possible, Last;
    var start := Track(IpState(0, 0, 0), []);
    RunsKeep(start, 0, steps, timeoutMs);
    var (t, clock) := Last(start, steps, timeoutMs, 0);
    SweepOf(t, clock, now, timeoutMs);
  }

  lemma {:induction false} SweepOf(t: Track, clock: nat, now: nat, timeoutMs: nat)
    requires Consistent(t, clock) && clock <= now < U64_LIMIT && t.pending != []
    ensures After(t, Sweep(now), timeoutMs).pending == [] <==> Stale(t.state.oldestHalfOpenMs, now, timeoutMs)
    ensures t.state.oldestHalfOpenMs <= t.pending[0]
    ensures forall i :: 0 <= i < |t.pending| ==> t.pending[0] <= t.pending[i]
  {
    assert Elapsed(now, t.state.oldestHalfOpenMs) == now - t.state.oldestHalfOpenMs;
  }

  /** Two connections, the older one promoted: the sweep drops the other one millisecond after it came. */
  lemma {:induction false} PromotionMakesSweepEarly(timeoutMs: nat)
    requires 0 < timeoutMs < U64_LIMIT - 1
    ensures var start, steps := Track(IpState(0, 0, 0), []), [Admit(0), Admit(timeoutMs), Promote(0)];
            && Possible(start, 0, steps, timeoutMs)
            && Last(start, steps, timeoutMs, 0) == (Track(IpState(1, 1, 0), [timeoutMs]), timeoutMs)
            && After(Track(IpState(1, 1, 0), [timeoutMs]), Sweep(timeoutMs + 1), timeoutMs).pending == []
  {
    var start, steps := Track(IpState(0, 0, 0), []), [Admit(0), Admit(timeoutMs), Promote(0)];
    var t1 := After(start, steps[0], timeoutMs);
    var t2 := After(t1, steps[1], timeoutMs);
    assert t2 == Track(IpState(2, 0, 0), [0, timeoutMs]);
    var t3 := After(t2, steps[2], timeoutMs);
    assert t3 == Track(IpState(1, 1, 0), [timeoutMs]);
    assert steps[1..] == [Admit(timeoutMs), Promote(0)] && steps[1..][1..] == [Promote(0)];
    assert steps[1..][1..][1..] == [];
    assert Possible(t3, timeoutMs, [], timeoutMs);
    assert Possible(t2, timeoutMs, [Promote(0)], timeoutMs);
    assert Possible(t1, 0, [Admit(timeoutMs), Promote(0)], timeoutMs);
    assert Last(t2, [Promote(0)], timeoutMs, timeoutMs) == (t3, timeoutMs);
    assert Last(t1, [Admit(timeoutMs), Promote(0)], timeoutMs, 0) == (t3, timeoutMs);
    assert Elapsed(timeoutMs + 1, 0) == timeoutMs + 1;
  }
}
