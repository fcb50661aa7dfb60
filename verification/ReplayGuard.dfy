/**
  Sliding-window replay protection (section 3.4.3 of RFC 4303). The guard keeps the highest number
  seen and one bit for each of the last `window` numbers; the claim is that this tiny state answers
  every call as if the guard remembered every call it ever got.
 */
module Replay {
  import opened Words

  /** What the answer to `n` must be after the calls in `log`. */
  predicate Fresh(window: nat, log: seq<nat>, n: nat) {
    n != 0 && n !in log && forall m :: m in log ==> n + window > m
  }

  /** The numbers accepted over a run of calls. */
  function Accepted(window: nat, log: seq<nat>): set<nat> {
    if log == [] then {}
    else
      var before, n := log[..|log| - 1], log[|log| - 1];
      Accepted(window, before) + if Fresh(window, before, n) then {n} else {}
  }

  /** How many calls of a run were answered with acceptance. */
  function Acceptances(window: nat, log: seq<nat>): nat {
    if log == [] then 0
    else
      var before, n := log[..|log| - 1], log[|log| - 1];
      Acceptances(window, before) + if Fresh(window, before, n) then 1 else 0
  }

  lemma {:induction false} AcceptStep(window: nat, log: seq<nat>, n: nat)
    ensures Acceptances(window, log + [n]) == Acceptances(window, log) + if Fresh(window, log, n) then 1 else 0
  {
    assert (log + [n])[..|log|] == log;
  }

  lemma {:induction false} AcceptedWereCalled(window: nat, log: seq<nat>)
    ensures forall n :: n in Accepted(window, log) ==> n in log && n != 0
  {
    if log == [] {
    } else {
      AcceptedWereCalled(window, log[..|log| - 1]);
    }
  }

  /** No number is accepted twice: there are as many acceptances as accepted numbers. */
  lemma {:induction false} NoDoubleAcceptance(window: nat, log: seq<nat>)
    ensures Acceptances(window, log) == |Accepted(window, log)|
  {
    if log == [] {
    } else {
      NoDoubleAcceptance(window, log[..|log| - 1]);
      AcceptedWereCalled(window, log[..|log| - 1]);
    }
  }

  /** Every number ever passed in is at most some accepted one, or zero. */
  lemma {:induction false} AcceptedAbove(window: nat, log: seq<nat>, m: nat)
    requires m in log && m != 0
    ensures exists a :: a in Accepted(window, log) && a >= m
  {
    var before, n := log[..|log| - 1], log[|log| - 1];
    if m in before {
      AcceptedAbove(window, before, m);
      var a :| a in Accepted(window, before) && a >= m;
      assert a in Accepted(window, log);
    } else if Fresh(window, before, n) {
      assert m in Accepted(window, log);
    } else {
      var higher :| higher in before && n + window <= higher;
      AcceptedAbove(window, before, higher);
      var a :| a in Accepted(window, before) && a >= higher;
      assert a in Accepted(window, log);
    }
  }

  /**
    Remembering only what was accepted gives the same answers as remembering every call: a number is
    fresh exactly if it is not zero, was never accepted, and is less than a window below every
    accepted number.
   */
  lemma {:induction false} FreshByAcceptance(window: nat, log: seq<nat>, n: nat)
    ensures Fresh(window, log, n) <==>
            n != 0 && n !in Accepted(window, log) && forall a :: a in Accepted(window, log) ==> n + window > a
  {
    AcceptedWereCalled(window, log);
    if n != 0 && n !in Accepted(window, log) && forall a :: a in Accepted(window, log) ==> n + window > a {
      forall m | m in log
        ensures n + window > m
      {
        if m != 0 {
          AcceptedAbove(window, log, m);
        }
      }
      if n in log {
        InWindowCallsWereAccepted(window, log, n);
      }
    }
  }

  lemma {:induction false} InWindowCallsWereAccepted(window: nat, log: seq<nat>, n: nat)
    requires n != 0 && n in log && forall m :: m in log ==> n + window > m
    ensures n in Accepted(window, log)
  {
    var before := log[..|log| - 1];
    assert forall m :: m in before ==> m in log;
    if n in before {
      InWindowCallsWereAccepted(window, before, n);
    } else {
      assert n == log[|log| - 1];
    }
  }

  // ----- The bitmap against the log -----

  /** Bit `d` says whether the number `d` below the highest was ever passed in. */
  ghost predicate Remembers(words: seq<Word>, highest: nat, log: seq<nat>) {
    forall d: nat :: d < 64 * |words| ==> (BitAt(words, d) <==> d < highest && highest - d in log)
  }

  lemma AdvanceRemembers(words: seq<Word>, moved: seq<Word>, final: seq<Word>, highest: nat, log: seq<nat>, n: nat)
    requires Remembers(words, highest, log) && n > highest
    requires forall m :: m in log ==> m <= highest
    requires MovedUp(words, moved, n - highest) && OneMore(moved, final, 0)
    ensures Remembers(final, n, log + [n])
  {
    forall d: nat | d < 64 * |final|
      ensures BitAt(final, d) <==> d < n && n - d in log + [n]
    {
      if d >= n - highest {
        assert BitAt(words, d - (n - highest)) <==> n - d > 0 && n - d in log;
      }
    }
  }

  lemma SetRemembers(words: seq<Word>, final: seq<Word>, highest: nat, log: seq<nat>, n: nat)
    requires Remembers(words, highest, log) && 0 < n <= highest
    requires OneMore(words, final, highest - n)
    ensures Remembers(final, highest, log + [n])
  {
  }

  lemma RejectRemembers(words: seq<Word>, highest: nat, log: seq<nat>, n: nat)
    requires Remembers(words, highest, log)
    requires n == 0 || n in log || n + 64 * |words| <= highest
    ensures Remembers(words, highest, log + [n])
  {
  }

  lemma SmallRemainder(a: nat, m: nat)
    requires a < m
    ensures a % m == a
  {
  }

  class ReplayGuard {
    const words: nat
    const bitmap: array<Word>
    var highest: nat
    var accepted: nat
    var rejectedReplay: nat
    var rejectedTooOld: nat
    /** Every number ever passed to `CheckAndUpdate`. */
    ghost var log: seq<nat>

    ghost function Window(): nat {
      64 * words
    }

    ghost predicate Valid()
      reads this, bitmap
    {
      && words > 0 && bitmap.Length == words
      && (forall m :: m in log ==> m <= highest)
      && (highest != 0 ==> highest in log)
      && Remembers(bitmap[..], highest, log)
      && accepted == Acceptances(Window(), log)
    }

    constructor (words: nat)
      requires words > 0
      ensures Valid() && log == [] && this.words == words && fresh(bitmap)
    {
      this.words := words;
      bitmap := new Word[words](_ => Zero());
      highest, accepted, rejectedReplay, rejectedTooOld := 0, 0, 0, 0;
      log := [];
    }

    /** Position of `n` in the bitmap. The mask `& (kWindow - 1)` is a remainder, the window being a power of two. */
    function IndexOf(n: nat): (r: nat)
      requires words > 0
      reads this
      ensures r < 64 * words
      ensures n <= highest < n + 64 * words ==> r == highest - n
    {
      SmallRemainder(if n <= highest < n + 64 * words then highest - n else 0, 64 * words);
      (if highest >= n then highest - n else 64 * words - 1) % (64 * words)
    }

    /** The counter of accepted numbers is the size of the accepted set. */
    lemma CounterIsSize()
      requires Valid()
      ensures accepted == |Accepted(Window(), log)|
    {
      NoDoubleAcceptance(Window(), log);
    }

    predicate TestBit(n: nat)
      requires words > 0 && bitmap.Length == words
      reads this, bitmap
    {
      var idx := IndexOf(n);
      ShiftRight(bitmap[idx / 64], idx % 64)[0]
    }

    method SetBit(n: nat)
      requires words > 0 && bitmap.Length == words
      modifies bitmap
      ensures OneMore(old(bitmap[..]), bitmap[..], IndexOf(n))
    {
      var idx := IndexOf(n);
      bitmap[idx / 64] := Or(bitmap[idx / 64], OneBit(idx % 64));
    }

    /** Moves every bit up by `newHigh - highest`, in place. */
    method AdvanceTo(newHigh: nat)
      requires words > 0 && bitmap.Length == words && newHigh > highest
      modifies bitmap
      ensures MovedUp(old(bitmap[..]), bitmap[..], newHigh - highest)
    {
      var shift := newHigh - highest;
      if shift >= 64 * words {
        FillZero();
        ZeroesMoveUp(old(bitmap[..]), bitmap[..], shift);
        return;
      }
      ShiftUp(shift / 64, shift % 64);
    }

    method ShiftUp(wordShift: nat, bitShift: nat)
      requires bitmap.Length == words && bitShift < 64
      modifies bitmap
      ensures MovedUp(old(bitmap[..]), bitmap[..], 64 * wordShift + bitShift)
    {
      ghost var before := bitmap[..];
      if wordShift > 0 {
        ShiftWords(wordShift);
      } else {
        NoMove(before);
      }
      ghost var moved := bitmap[..];
      assert MovedUp(before, moved, 64 * wordShift);
      if bitShift > 0 {
        ShiftBits(bitShift);
      } else {
        NoMove(moved);
      }
      MovesAddUp(before, moved, bitmap[..], 64 * wordShift, bitShift);
    }

    method FillZero()
      requires bitmap.Length == words
      modifies bitmap
      ensures forall i :: 0 <= i < words ==> bitmap[..][i] == Zero()
    {
      forall i | 0 <= i < bitmap.Length {
        bitmap[i] := Zero();
      }
    }

    method ShiftWords(n: nat)
      requires bitmap.Length == words
      modifies bitmap
      ensures MovedUp(old(bitmap[..]), bitmap[..], 64 * n)
    {
      ghost var before := bitmap[..];
      var i := words - 1;
      while i >= 0
        invariant -1 <= i < words
        invariant forall k :: 0 <= k <= i ==> bitmap[k] == before[k]
        invariant forall k :: i < k < words ==> bitmap[k] == WordOrZero(before, k - n)
      {
        var src := i - n;
        bitmap[i] := if src >= 0 then bitmap[src] else Zero();
        i := i - 1;
      }
      WordsMoveUp(before, bitmap[..], n);
    }

    method ShiftBits(s: nat)
      requires bitmap.Length == words && 0 < s < 64
      modifies bitmap
      ensures MovedUp(old(bitmap[..]), bitmap[..], s)
    {
      ghost var before := bitmap[..];
      var i := words - 1;
      while i >= 0
        invariant -1 <= i < words
        invariant forall k :: 0 <= k <= i ==> bitmap[k] == before[k]
        invariant forall k {:trigger bitmap[k]} :: i < k < words ==> IsFunnel(bitmap[k], before[k], WordOrZero(before, k - 1), s)
      {
        var below := if i > 0 then bitmap[i - 1] else Zero();
        FunnelBits(bitmap[i], below, s);
        bitmap[i] := Funnel(bitmap[i], below, s);
        i := i - 1;
      }
      BitsMoveUp(before, bitmap[..], s);
    }

    /** Inside the window, the stored bit says whether the number was ever passed in. */
    lemma BitRemembers(n: nat)
      requires Valid() && 0 < n <= highest && highest - n < Window()
      ensures TestBit(n) <==> n in log
    {
      var d := highest - n;
      SmallRemainder(d, 64 * words);
      assert BitAt(bitmap[..], d) <==> d < highest && highest - d in log;
    }

    predicate WouldAccept(n: nat)
      requires Valid()
      reads this, bitmap
      ensures WouldAccept(n) <==> Fresh(Window(), log, n)
    {
      if n == 0 then false
      else if n > highest then true
      else if highest - n >= 64 * words then
        assert highest in log;
        false
      else
        BitRemembers(n);
        !TestBit(n)
    }

    /** A number above every earlier one slides the window up to itself. */
    method SlideTo(n: nat)
      requires Valid() && n > highest
      modifies this`highest, bitmap
      ensures highest == n && Remembers(bitmap[..], n, log + [n])
    {
      ghost var before := bitmap[..];
      AdvanceTo(n);
      ghost var moved := bitmap[..];
      highest := n;
      SetBit(n);
      SmallRemainder(0, 64 * words);
      AdvanceRemembers(before, moved, bitmap[..], old(highest), log, n);
    }

    /** Notes a call that was rejected. */
    ghost method Reject(n: nat)
      requires Valid() && !Fresh(Window(), log, n) && (n == 0 || n in log || n + Window() <= highest)
      modifies this`log
      ensures Valid() && log == old(log) + [n]
    {
      hide Fresh, Remembers, Acceptances;
      AcceptStep(Window(), log, n);
      RejectRemembers(bitmap[..], highest, log, n);
      log := log + [n];
    }

    /** Notes a call that was accepted, once bitmap and highest number have taken it in. */
    ghost method Accept(n: nat)
      requires words > 0 && bitmap.Length == words && Fresh(Window(), log, n) && n <= highest && highest in log + [n]
      requires (forall m :: m in log ==> m <= highest) && Remembers(bitmap[..], highest, log + [n])
      requires accepted == Acceptances(Window(), log) + 1
      modifies this`log
      ensures Valid() && log == old(log) + [n]
    {
      hide Fresh, Remembers, Acceptances;
      AcceptStep(Window(), log, n);
      log := log + [n];
    }

    method CheckAndUpdate(n: nat) returns (ok: bool)
      requires Valid()
      modifies this, bitmap
      ensures Valid() && log == old(log) + [n]
      ensures ok <==> Fresh(Window(), old(log), n)
      ensures rejectedTooOld == old(rejectedTooOld) + if n != 0 && n + Window() <= old(highest) then 1 else 0
      ensures rejectedReplay ==
              old(rejectedReplay) + if n != 0 && n + Window() > old(highest) && n in old(log) then 1 else 0
    {
      hide Remembers, Acceptances;
      if n == 0 {
        Reject(n);
        return false;
      }
      if n > highest {
        SlideTo(n);
        accepted := accepted + 1;
        Accept(n);
        return true;
      }
      var diff := highest - n;
      if diff >= 64 * words {
        rejectedTooOld := rejectedTooOld + 1;
        Reject(n);
        return false;
      }
      BitRemembers(n);
      if TestBit(n) {
        rejectedReplay := rejectedReplay + 1;
        Reject(n);
        return false;
      }
      SmallRemainder(diff, 64 * words);
      SetBit(n);
      accepted := accepted + 1;
      SetRemembers(old(bitmap[..]), bitmap[..], highest, log, n);
      Accept(n);
      return true;
    }

    method Reset()
      requires Valid()
      modifies this, bitmap
      ensures Valid() && log == [] && accepted == rejectedReplay == rejectedTooOld == 0
    {
      FillZero();
      highest := 0;
      accepted, rejectedReplay, rejectedTooOld := 0, 0, 0;
      log := [];
    }
  }
}
