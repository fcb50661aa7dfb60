/** The byte token bucket, with the clock's reading as an input to every call. */
module TokenBucket {
  import opened Common

  const SECOND_US: nat := 1_000_000
  const U32_MAX: nat := 0xFFFF_FFFF

  datatype Bucket = Bucket(capacity: nat, rate: nat, tokens: nat, last: nat)

  function Fresh(capacity: nat, rate: nat): Bucket {
    Bucket(capacity, rate, capacity, 0)
  }

  /** 64-bit arithmetic: products and sums keep only their low 64 bits. */
  function Word(x: nat): nat {
    x % U64_LIMIT
  }

  /** The tokens that an elapsed time is worth, rounded down. */
  function Earned(rate: nat, elapsed: nat): nat {
    Word(rate * elapsed) / SECOND_US
  }

  function Refilled(b: Bucket, now: nat): Bucket {
    if b.last == 0 then b.(last := now)
    else if now <= b.last then b
    else
      var add := Earned(b.rate, now - b.last);
      if add == 0 then b
      else
        var sum := Word(b.tokens + add);
        b.(tokens := if sum > b.capacity then b.capacity else sum, last := now)
  }

  function Taken(b: Bucket, now: nat, bytes: nat): (Bucket, bool) {
    var r := Refilled(b, now);
    if r.tokens < bytes then (r, false) else (r.(tokens := r.tokens - bytes), true)
  }

  /** The milliseconds in which a rate makes up for a deficit, rounded up. */
  function WaitFor(deficit: nat, rate: nat): nat
    requires rate > 0
  {
    Word(Word(deficit * 1000) + rate - 1) / rate
  }

  function Wait(b: Bucket, now: nat, bytes: nat): (Bucket, nat) {
    if b.rate == 0 then (b, 0)
    else
      var r := Refilled(b, now);
      if r.tokens >= bytes then (r, 0)
      else
        var ms := WaitFor(bytes - r.tokens, b.rate);
        (r, if ms > U32_MAX then U32_MAX else ms)
  }

  // ----- Never more than capacity plus rate times time -----

  datatype Call = Take(now: nat, bytes: nat) | Ask(now: nat, bytes: nat)

  /** A bucket in use: when it first saw the clock running, and the bytes granted so far. */
  datatype Use = Use(bucket: Bucket, since: nat, granted: nat)

  function Do(u: Use, c: Call): Use {
    var since := if u.bucket.last == 0 then c.now else u.since;
    match c
    case Take(now, bytes) =>
      var (b, ok) := Taken(u.bucket, now, bytes);
      Use(b, since, u.granted + if ok then bytes else 0)
    case Ask(now, bytes) =>
      Use(Wait(u.bucket, now, bytes).0, since, u.granted)
  }

  function Run(u: Use, calls: seq<Call>): Use
    decreases |calls|
  {
    if calls == [] then u else Run(Do(u, calls[0]), calls[1..])
  }

  /** Granted and held tokens are paid for by the capacity and the time up to the last refill. */
  ghost predicate Paid(u: Use) {
    && u.bucket.tokens <= u.bucket.capacity
    && (u.bucket.last == 0 || u.since <= u.bucket.last)
    && SECOND_US * (u.granted + u.bucket.tokens)
       <= SECOND_US * u.bucket.capacity
          + (if u.bucket.last == 0 then 0 else u.bucket.rate * (u.bucket.last - u.since))
  }

  lemma {:induction false} MulMono(a: nat, b: nat, c: nat)
    requires a <= b
    ensures c * a <= c * b
  {
    assert c * (b - a) >= 0;
  }

  lemma {:induction false} MulSplit(rate: nat, a: nat, b: nat)
    ensures rate * (a + b) == rate * a + rate * b
  {
  }

  /** What a refill adds is no more than the elapsed time is worth. */
  lemma {:induction false} EarnedIsPaid(rate: nat, elapsed: nat)
    ensures SECOND_US * Earned(rate, elapsed) <= rate * elapsed
  {
    var w := rate * elapsed;
    assert w % U64_LIMIT <= w;
  }

  lemma {:induction false} RefillIsPaid(u: Use, now: nat)
    requires Paid(u)
    ensures Paid(Use(Refilled(u.bucket, now), if u.bucket.last == 0 then now else u.since, u.granted))
  {
    hide Earned;
    var b := u.bucket;
    if b.last != 0 && now > b.last {
      var e := now - b.last;
      EarnedIsPaid(b.rate, e);
      MulSplit(b.rate, b.last - u.since, e);
      assert (b.last - u.since) + e == now - u.since;
      var add := Earned(b.rate, e);
      assert Word(b.tokens + add) <= b.tokens + add;
    }
  }

  lemma {:induction false} DoIsPaid(u: Use, c: Call)
    requires Paid(u)
    ensures Paid(Do(u, c))
  {
    hide Refilled;
    RefillIsPaid(u, c.now);
  }

  lemma {:induction false} RunIsPaid(u: Use, calls: seq<Call>)
    requires Paid(u)
    ensures Paid(Run(u, calls))
    decreases |calls|
  {
    hide Paid, Do;
    if calls == [] {
    } else {
      DoIsPaid(u, calls[0]);
      RunIsPaid(Do(u, calls[0]), calls[1..]);
    }
  }

  lemma {:induction false} KeepsSettings(u: Use, calls: seq<Call>, until: nat)
    requires u.bucket.last <= until && forall i :: 0 <= i < |calls| ==> calls[i].now <= until
    ensures Run(u, calls).bucket.capacity == u.bucket.capacity && Run(u, calls).bucket.rate == u.bucket.rate
    ensures Run(u, calls).bucket.last <= until
    decreases |calls|
  {
    if calls == [] {
    } else {
      KeepsSettings(Do(u, calls[0]), calls[1..], until);
    }
  }

  /**
    Over any run of calls up to a time, whatever the clock does, the bytes granted are at most the
    capacity plus the rate times the time since the clock was first seen running.
   */
  lemma {:induction false} GrantsAreBounded(capacity: nat, rate: nat, calls: seq<Call>, until: nat)
    requires forall i :: 0 <= i < |calls| ==> calls[i].now <= until
    ensures var u := Run(Use(Fresh(capacity, rate), 0, 0), calls);
            && u.bucket.last <= until && (u.bucket.last == 0 || u.since <= u.bucket.last)
            && SECOND_US * u.granted
               <= SECOND_US * capacity + (if u.bucket.last == 0 then 0 else rate * (until - u.since))
  {
    hide Run;
    var u0 := Use(Fresh(capacity, rate), 0, 0);
    RunIsPaid(u0, calls);
    KeepsSettings(u0, calls, until);
    var u := Run(u0, calls);
    if u.bucket.last != 0 {
      MulMono(u.bucket.last - u.since, until - u.since, rate);
    }
  }

  // ----- Waiting long enough -----

  /** No product or sum leaves 64 bits up to this clock reading, for requests up to the capacity. */
  predicate Calm(b: Bucket, until: nat) {
    b.rate * until + b.capacity < U64_LIMIT && b.capacity * 1000 + b.rate < U64_LIMIT
  }

  /** Rounding up: so many milliseconds at this rate are worth the deficit. */
  lemma {:induction false} WaitForIsEnough(deficit: nat, rate: nat)
    requires rate > 0 && deficit * 1000 + rate < U64_LIMIT
    ensures rate * WaitFor(deficit, rate) >= deficit * 1000
    ensures deficit > 0 ==> WaitFor(deficit, rate) > 0
  {
    var n := deficit * 1000 + rate - 1;
    assert Word(Word(deficit * 1000) + rate - 1) == n;
    assert n == rate * (n / rate) + n % rate;
  }

  lemma {:induction false} EarnedEnough(rate: nat, elapsed: nat, ms: nat, deficit: nat)
    requires rate * elapsed < U64_LIMIT && elapsed >= 1000 * ms && rate * ms >= deficit * 1000
    ensures Earned(rate, elapsed) >= deficit
  {
    MulMono(1000 * ms, elapsed, rate);
    assert rate * (1000 * ms) == 1000 * (rate * ms);
    var w := rate * elapsed;
    assert w >= SECOND_US * deficit;
  }

  /** The reported wait is the computed one, not the largest 32-bit number in its place. */
  predicate Unclamped(b: Bucket, now: nat, bytes: nat)
    requires b.rate > 0
  {
    var r := Refilled(b, now);
    r.tokens >= bytes || WaitFor(bytes - r.tokens, b.rate) <= U32_MAX
  }

  /** Later on there are at least as many tokens, or enough of them. */
  lemma {:induction false} RefillLater(b: Bucket, later: nat, bytes: nat)
    requires b.tokens <= b.capacity && bytes <= b.tokens && Calm(b, later)
    ensures Refilled(b, later).tokens >= bytes
  {
    hide Earned;
    if b.last != 0 && later > b.last {
      EarnedFits(b, later - b.last, later);
    }
  }

  /**
    A request within the capacity, repeated at any time from the reported wait on, is granted exactly
    when it could have been granted at once or the clock had been seen running when asked. (A clock
    that reads zero starts the bucket's time only at the later call.)
   */
  lemma {:induction false} WaitIsEnough(b: Bucket, now: nat, bytes: nat, later: nat)
    requires b.rate > 0 && b.tokens <= b.capacity && b.last <= now && bytes <= b.capacity
    requires Unclamped(b, now, bytes) && Calm(b, later) && later >= now + 1000 * Wait(b, now, bytes).1
    ensures var (r, ms) := Wait(b, now, bytes);
            Taken(r, later, bytes).1 <==> ms == 0 || now > 0
  {
    hide Earned, WaitFor;
    var (r, ms) := Wait(b, now, bytes);
    RefilledFacts(b, now);
    PositiveWait(b, now, bytes);
    if ms == 0 {
      RefillLater(r, later, bytes);
    } else if now > 0 {
      var deficit := bytes - r.tokens;
      var elapsed := later - r.last;
      MulMono(elapsed, later, b.rate);
      EarnedEnough(b.rate, elapsed, ms, deficit);
      EarnedFits(b, elapsed, later);
    }
  }

  lemma {:induction false} RefilledFacts(b: Bucket, now: nat)
    requires b.tokens <= b.capacity && b.last <= now
    ensures var r := Refilled(b, now);
            && r.capacity == b.capacity && r.rate == b.rate && r.tokens <= r.capacity && r.last <= now
            && (r.last == 0 <==> now == 0)
  {
    hide Earned;
  }

  lemma {:induction false} RefillKeepsRate(b: Bucket, now: nat)
    ensures Refilled(b, now).rate == b.rate
  {
    hide Earned;
  }

  /** A reported wait of zero means enough tokens; any other is the deficit at the rate, rounded up. */
  lemma {:induction false} PositiveWait(b: Bucket, now: nat, bytes: nat)
    requires b.rate > 0 && b.tokens <= b.capacity && b.last <= now && bytes <= b.capacity
    requires Unclamped(b, now, bytes) && b.capacity * 1000 + b.rate < U64_LIMIT
    ensures var (r, ms) := Wait(b, now, bytes);
            && r == Refilled(b, now)
            && (ms == 0 <==> r.tokens >= bytes)
            && (ms > 0 ==> b.rate * ms >= (bytes - r.tokens) * 1000)
  {
    hide Refilled, WaitFor;
    RefilledFacts(b, now);
    var r := Refilled(b, now);
    if r.tokens < bytes {
      WaitForIsEnough(bytes - r.tokens, b.rate);
    }
  }

  lemma {:induction false} EarnedFits(b: Bucket, elapsed: nat, until: nat)
    requires Calm(b, until) && elapsed <= until && b.tokens <= b.capacity
    ensures Earned(b.rate, elapsed) + b.capacity < U64_LIMIT
  {
    MulMono(elapsed, until, b.rate);
    EarnedIsPaid(b.rate, elapsed);
  }

  /** The clock reading zero: all tokens are taken, and after the reported wait the request fails. */
  lemma {:induction false} ZeroClockFails()
    ensures var (b, ok) := Taken(Fresh(10, 1000), 0, 10);
            var (r, ms) := Wait(b, 0, 10);
            ok && ms == 10 && !Taken(r, 1000 * ms, 10).1
  {
  }

  // ----- The bucket as the program keeps it -----

  class TokenBucket {
    const capacity: nat
    var rate: nat
    var tokens: nat
    var last: nat

    function View(): Bucket
      reads this
    {
      Bucket(capacity, rate, tokens, last)
    }

    constructor (capacity: nat, rate: nat)
      ensures View() == Fresh(capacity, rate)
    {
      this.capacity := capacity;
      this.rate := rate;
      tokens := capacity;
      last := 0;
    }

    method Refill(now: nat)
      modifies this
      ensures View() == Refilled(old(View()), now)
    {
      if last == 0 {
        last := now;
        return;
      }
      if now <= last {
        return;
      }
      var elapsed := now - last;
      var add := Word(rate * elapsed) / SECOND_US;
      if add == 0 {
        return;
      }
      var sum := Word(tokens + add);
      if sum > capacity {
        sum := capacity;
      }
      tokens := sum;
      last := now;
    }

    method TryTake(now: nat, bytes: nat) returns (ok: bool)
      modifies this
      ensures (View(), ok) == Taken(old(View()), now, bytes)
    {
      Refill(now);
      if tokens < bytes {
        return false;
      }
      tokens := tokens - bytes;
      return true;
    }

    method WaitMs(now: nat, bytes: nat) returns (ms: nat)
      modifies this
      ensures (View(), ms) == Wait(old(View()), now, bytes)
    {
      hide Refilled, WaitFor;
      if rate == 0 {
        return 0;
      }
      Refill(now);
      RefillKeepsRate(old(View()), now);
      if tokens >= bytes {
        return 0;
      }
      var deficit := bytes - tokens;
      ms := WaitFor(deficit, rate);
      if ms > U32_MAX {
        ms := U32_MAX;
      }
    }
  }
}
