/**
  The connection guard: per-address and global counts of half-open and established connections over
  a chained hash table. Everything here holds for any hash function.
 */
module Dos {
  import opened Common
  import opened Chains

  const BUCKETS: nat := 1024

  datatype IpState = IpState(halfOpen: nat, established: nat, oldestHalfOpenMs: nat)

  function Half(s: IpState): nat {
    s.halfOpen
  }

  function Established(s: IpState): nat {
    s.established
  }

  /** Unsigned 64-bit difference: a clock that went backwards shows as a very long time. */
  function Elapsed(now: nat, since: nat): nat {
    (now - since) % U64_LIMIT
  }

  /** One more half-open connection; the first of them sets the clock. */
  function Admitted(s: IpState, now: nat): IpState {
    IpState(s.halfOpen + 1, s.established, if s.halfOpen == 0 then now else s.oldestHalfOpenMs)
  }

  function Promoted(s: IpState): IpState {
    if s.halfOpen == 0 then s else s.(halfOpen := s.halfOpen - 1, established := s.established + 1)
  }

  function Released(s: IpState): IpState {
    if s.established > 0 then s.(established := s.established - 1)
    else if s.halfOpen > 0 then s.(halfOpen := s.halfOpen - 1)
    else s
  }

  /** What is known of an address nobody has connected from. */
  function Known(found: Option<IpState>): IpState {
    if found.Some? then found.value else IpState(0, 0, 0)
  }

  /** An address whose oldest half-open connection is too old loses all its half-open connections. */
  function Swept(s: IpState, now: nat, timeoutMs: nat): IpState {
    if s.halfOpen != 0 && Elapsed(now, s.oldestHalfOpenMs) > timeoutMs then s.(halfOpen := 0) else s
  }

  function SweptEntry(e: Entry<string, IpState>, now: nat, timeoutMs: nat): Entry<string, IpState> {
    e.(value := Swept(e.value, now, timeoutMs))
  }

  function SweptChain(chain: Chain<string, IpState>, now: nat, timeoutMs: nat): Chain<string, IpState> {
    seq(|chain|, k requires 0 <= k < |chain| => SweptEntry(chain[k], now, timeoutMs))
  }

  lemma {:induction false} SweptLookup(chain: Chain<string, IpState>, ip: string, now: nat, timeoutMs: nat)
    ensures Lookup(SweptChain(chain, now, timeoutMs), ip) ==
            if Lookup(chain, ip).None? then None else Some(Swept(Lookup(chain, ip).value, now, timeoutMs))
  {
    if chain == [] || chain[0].key == ip {
    } else {
      SweptLookup(chain[1..], ip, now, timeoutMs);
      assert SweptChain(chain, now, timeoutMs)[1..] == SweptChain(chain[1..], now, timeoutMs);
    }
  }

  type Table = seq<Chain<string, IpState>>

  /** Every address is within the per-address cap. */
  ghost predicate Capped(buckets: Table, maxPerIp: nat) {
    forall b, k :: 0 <= b < |buckets| && 0 <= k < |buckets[b]| ==>
      buckets[b][k].value.halfOpen + buckets[b][k].value.established <= maxPerIp
  }

  ghost predicate ChainCapped(chain: Chain<string, IpState>, maxPerIp: nat) {
    forall k :: 0 <= k < |chain| ==> chain[k].value.halfOpen + chain[k].value.established <= maxPerIp
  }

  lemma {:induction false} LookupCapped(chain: Chain<string, IpState>, ip: string, maxPerIp: nat)
    requires ChainCapped(chain, maxPerIp) && Lookup(chain, ip).Some?
    ensures Lookup(chain, ip).value.halfOpen + Lookup(chain, ip).value.established <= maxPerIp
  {
    if chain[0].key == ip {
    } else {
      LookupCapped(chain[1..], ip, maxPerIp);
    }
  }

  lemma {:induction false} ReplaceCapped(chain: Chain<string, IpState>, ip: string, s: IpState, maxPerIp: nat)
    requires ChainCapped(chain, maxPerIp) && s.halfOpen + s.established <= maxPerIp
    ensures ChainCapped(Replace(chain, ip, s), maxPerIp)
  {
    if chain == [] || chain[0].key == ip {
    } else {
      ReplaceCapped(chain[1..], ip, s, maxPerIp);
    }
  }

  class DosGuard {
    const maxPerIp: nat
    const maxGlobal: nat
    const timeoutMs: nat
    const hash: string -> nat
    var globalHalfOpen: nat
    var globalEstablished: nat
    var buckets: Table

    ghost predicate Valid()
      reads this
    {
      && |buckets| == BUCKETS
      && globalHalfOpen == Total(Half, buckets)
      && globalEstablished == Total(Established, buckets)
      && globalHalfOpen + globalEstablished <= maxGlobal
      && Capped(buckets, maxPerIp)
    }

    constructor (maxPerIp: nat, maxGlobal: nat, timeoutMs: nat, hash: string -> nat)
      requires maxPerIp > 0 && maxGlobal > 0 && timeoutMs > 0
      ensures Valid() && globalHalfOpen == 0 && globalEstablished == 0
      ensures this.maxPerIp == maxPerIp && this.maxGlobal == maxGlobal && this.timeoutMs == timeoutMs
    {
      this.maxPerIp := maxPerIp;
      this.maxGlobal := maxGlobal;
      this.timeoutMs := timeoutMs;
      this.hash := hash;
      globalHalfOpen, globalEstablished := 0, 0;
      buckets := seq(BUCKETS, _ => []);
      new;
      TotalEmpty(Half, buckets);
      TotalEmpty(Established, buckets);
    }

    /** The state kept for an address, if any. */
    function Find(ip: string): Option<IpState>
      requires |buckets| == BUCKETS
      reads this
    {
      LookupIn(hash, buckets, ip)
    }

    lemma FoundIsCapped(ip: string)
      requires Valid() && Find(ip).Some?
      ensures Find(ip).value.halfOpen + Find(ip).value.established <= maxPerIp
    {
      LookupCapped(buckets[Slot(hash, BUCKETS, ip)], ip, maxPerIp);
    }

    lemma StoreCapped(ip: string, s: IpState)
      requires Valid() && s.halfOpen + s.established <= maxPerIp
      ensures Capped(StoreIn(hash, buckets, ip, s), maxPerIp)
    {
      var chain := buckets[Slot(hash, BUCKETS, ip)];
      assert ChainCapped(chain, maxPerIp);
      ReplaceCapped(chain, ip, s, maxPerIp);
      assert ChainCapped(Store(chain, ip, s), maxPerIp);
    }

    /** Stores a state within the per-address cap and settles the two global counters with it. */
    method Settle(ip: string, s: IpState)
      requires Valid() && s.halfOpen + s.established <= maxPerIp
      requires globalHalfOpen - At(Half, Find(ip)) + s.halfOpen
               + globalEstablished - At(Established, Find(ip)) + s.established <= maxGlobal
      modifies this
      ensures Valid()
      ensures globalHalfOpen == old(globalHalfOpen - At(Half, Find(ip))) + s.halfOpen
      ensures globalEstablished == old(globalEstablished - At(Established, Find(ip))) + s.established
      ensures forall other :: Find(other) == if other == ip then Some(s) else old(Find(other))
    {
      StoreInTotal(Half, hash, buckets, ip, s);
      StoreInTotal(Established, hash, buckets, ip, s);
      StoreCapped(ip, s);
      var was := Find(ip);
      var e := if was.Some? then was.value else IpState(0, 0, 0);
      globalHalfOpen := globalHalfOpen - e.halfOpen + s.halfOpen;
      globalEstablished := globalEstablished - e.established + s.established;
      buckets := Upsert(hash, buckets, ip, s);
    }

    /** Admission: exactly when both the global and the address total leave room. */
    method Admit(ip: string, now: nat) returns (ok: bool)
      requires Valid()
      modifies this
      ensures Valid()
      ensures ok <==> old(globalHalfOpen + globalEstablished) < maxGlobal
                      && Known(old(Find(ip))).halfOpen + Known(old(Find(ip))).established < maxPerIp
      ensures globalEstablished == old(globalEstablished)
      ensures globalHalfOpen == old(globalHalfOpen) + if ok then 1 else 0
      ensures forall other :: other != ip ==> Find(other) == old(Find(other))
      ensures Known(Find(ip)) == if ok then Admitted(Known(old(Find(ip))), now) else Known(old(Find(ip)))
    {
      if globalHalfOpen + globalEstablished >= maxGlobal {
        return false;
      }
      var found := Find(ip);
      var e := if found.Some? then found.value else IpState(0, 0, 0);
      if e.halfOpen + e.established >= maxPerIp {
        if found.None? {
          Settle(ip, e);
        }
        return false;
      }
      var since := if e.halfOpen == 0 then now else e.oldestHalfOpenMs;
      Settle(ip, IpState(e.halfOpen + 1, e.established, since));
      return true;
    }

    /** A half-open connection of the address becomes established; the totals only trade places. */
    method Promote(ip: string)
      requires Valid()
      modifies this
      ensures Valid()
      ensures globalHalfOpen + globalEstablished == old(globalHalfOpen + globalEstablished)
      ensures globalHalfOpen == old(globalHalfOpen) - if Known(old(Find(ip))).halfOpen > 0 then 1 else 0
      ensures forall other :: other != ip ==> Find(other) == old(Find(other))
      ensures Known(Find(ip)) == Promoted(Known(old(Find(ip))))
    {
      var found := Find(ip);
      if found.None? || found.value.halfOpen == 0 {
        return;
      }
      FoundIsCapped(ip);
      var e := found.value;
      Settle(ip, e.(halfOpen := e.halfOpen - 1, established := e.established + 1));
    }

    /** Closing a connection of the address: an established one if there is any, else a half-open one. */
    method Release(ip: string)
      requires Valid()
      modifies this
      ensures Valid()
      ensures Known(Find(ip)) == Released(Known(old(Find(ip))))
      ensures old(globalEstablished) - globalEstablished == Known(old(Find(ip))).established - Known(Find(ip)).established
      ensures old(globalHalfOpen) - globalHalfOpen == Known(old(Find(ip))).halfOpen - Known(Find(ip)).halfOpen
      ensures forall other :: other != ip ==> Find(other) == old(Find(other))
    {
      var found := Find(ip);
      if found.None? {
        return;
      }
      FoundIsCapped(ip);
      var e := found.value;
      if e.established > 0 {
        Settle(ip, e.(established := e.established - 1));
      } else if e.halfOpen > 0 {
        Settle(ip, e.(halfOpen := e.halfOpen - 1));
      }
    }

    /** Updating one entry of one chain moves the totals by that entry's difference. */
    lemma EntryTotals(b: nat, k: nat, s: IpState)
      requires Valid() && b < |buckets| && k < |buckets[b]| && s.established == buckets[b][k].value.established
      ensures var after := buckets[b := buckets[b][k := buckets[b][k].(value := s)]];
              && buckets[b][k].value.halfOpen <= globalHalfOpen
              && Total(Half, after) == globalHalfOpen - buckets[b][k].value.halfOpen + s.halfOpen
              && Total(Established, after) == globalEstablished
    {
      var e := buckets[b][k].(value := s);
      SumUpdate(Half, buckets[b], k, e);
      SumUpdate(Established, buckets[b], k, e);
      TotalUpdate(Half, buckets, b, buckets[b][k := e]);
      TotalUpdate(Established, buckets, b, buckets[b][k := e]);
    }

    /** Drops the half-open connections of one stale entry; the counter never has to be clamped. */
    method Reap(b: nat, k: nat, now: nat) returns (reaped: nat)
      requires Valid() && b < |buckets| && k < |buckets[b]|
      modifies this
      ensures Valid()
      ensures buckets == old(buckets)[b := old(buckets)[b][k := SweptEntry(old(buckets)[b][k], now, timeoutMs)]]
      ensures globalHalfOpen + reaped == old(globalHalfOpen) && globalEstablished == old(globalEstablished)
    {
      var e := buckets[b][k];
      assert buckets[b][k := e] == buckets[b];
      reaped := 0;
      if e.value.halfOpen != 0 && Elapsed(now, e.value.oldestHalfOpenMs) > timeoutMs {
        var s := e.value.(halfOpen := 0);
        EntryTotals(b, k, s);
        if e.value.halfOpen > globalHalfOpen {
          assert false;
        } else {
          globalHalfOpen := globalHalfOpen - e.value.halfOpen;
        }
        reaped := e.value.halfOpen;
        buckets := buckets[b := buckets[b][k := e.(value := s)]];
      }
    }

    /** Every stale address loses its half-open connections, and the result is exactly how many went. */
    method Sweep(now: nat) returns (reaped: nat)
      requires Valid()
      modifies this
      ensures Valid()
      ensures globalHalfOpen + reaped == old(globalHalfOpen) && globalEstablished == old(globalEstablished)
      ensures forall b :: 0 <= b < BUCKETS ==> buckets[b] == SweptChain(old(buckets)[b], now, timeoutMs)
      ensures forall ip :: Find(ip) == if old(Find(ip)).None? then None else Some(Swept(old(Find(ip)).value, now, timeoutMs))
    {
      reaped := 0;
      var b := 0;
      while b < BUCKETS
        invariant b <= BUCKETS && Valid()
        invariant globalHalfOpen + reaped == old(globalHalfOpen) && globalEstablished == old(globalEstablished)
        invariant forall j :: 0 <= j < b ==> buckets[j] == SweptChain(old(buckets)[j], now, timeoutMs)
        invariant forall j :: b <= j < BUCKETS ==> buckets[j] == old(buckets)[j]
      {
        var n := SweepBucket(b, now);
        reaped := reaped + n;
        b := b + 1;
      }
      forall ip
        ensures Lookup(buckets[Slot(hash, BUCKETS, ip)], ip) ==
                if old(Find(ip)).None? then None else Some(Swept(old(Find(ip)).value, now, timeoutMs))
      {
        SweptLookup(old(buckets)[Slot(hash, BUCKETS, ip)], ip, now, timeoutMs);
      }
    }

    method SweepBucket(b: nat, now: nat) returns (reaped: nat)
      requires Valid() && b < BUCKETS
      modifies this
      ensures Valid()
      ensures buckets == old(buckets)[b := SweptChain(old(buckets)[b], now, timeoutMs)]
      ensures globalHalfOpen + reaped == old(globalHalfOpen) && globalEstablished == old(globalEstablished)
    {
      reaped := 0;
      var k := 0;
      ghost var chain := buckets[b];
      while k < |buckets[b]|
        invariant Valid() && |buckets[b]| == |chain| && k <= |chain|
        invariant buckets == old(buckets)[b := buckets[b]]
        invariant forall j :: 0 <= j < k ==> buckets[b][j] == SweptEntry(chain[j], now, timeoutMs)
        invariant forall j :: k <= j < |chain| ==> buckets[b][j] == chain[j]
        invariant globalHalfOpen + reaped == old(globalHalfOpen) && globalEstablished == old(globalEstablished)
      {
        var n := Reap(b, k, now);
        reaped := reaped + n;
        k := k + 1;
      }
      assert buckets[b] == SweptChain(chain, now, timeoutMs);
    }
  }

  /** Creation refuses a zero limit. */
  method NewGuard(maxPerIp: nat, maxGlobal: nat, timeoutMs: nat, hash: string -> nat) returns (g: DosGuard?)
    ensures g == null <==> maxPerIp == 0 || maxGlobal == 0 || timeoutMs == 0
    ensures g != null ==> fresh(g) && g.Valid() && g.globalHalfOpen == 0 && g.globalEstablished == 0
  {
    if maxPerIp == 0 || maxGlobal == 0 || timeoutMs == 0 {
      return null;
    }
    g := new DosGuard(maxPerIp, maxGlobal, timeoutMs, hash);
  }
}
