/** Circular byte buffers: a fixed array read from one place and written at another, both wrapping. */
module Circular {
  import opened Common
  import opened Files

  /** A position at most one turn past the end, brought back into the buffer. */
  function Wrap(x: nat, capacity: nat): nat
    requires x < 2 * capacity
  {
    if x < capacity then x else x - capacity
  }

  lemma {:induction false} WrapIsMod(x: nat, capacity: nat)
    requires x < 2 * capacity
    ensures x % capacity == Wrap(x, capacity)
  {
    if x < capacity {
      assert x == capacity * 0 + x;
    } else {
      assert x == capacity * 1 + (x - capacity);
    }
  }

  /** The remainder, as the program computes it. */
  method Wrapped(x: nat, capacity: nat) returns (r: nat)
    requires x < 2 * capacity
    ensures r == Wrap(x, capacity)
  {
    WrapIsMod(x, capacity);
    r := x % capacity;
  }

  lemma {:induction false} WrapTwice(head: nat, w: nat, used: nat, capacity: nat)
    requires head < capacity && w <= used <= capacity
    ensures Wrap(head + w, capacity) < capacity
    ensures Wrap(Wrap(head + w, capacity) + (used - w), capacity) == Wrap(head + used, capacity)
  {
  }

  lemma {:induction false} SplitAt(sent: seq<Byte>, pending: seq<Byte>, w: nat)
    requires w <= |pending|
    ensures sent + pending == (sent + pending[..w]) + pending[w..]
  {
  }

  /** The bytes held, oldest first. */
  function Unroll(buf: seq<Byte>, start: nat, used: nat): (r: seq<Byte>)
    requires start < |buf| && used <= |buf|
    ensures |r| == used && forall i :: 0 <= i < used ==> r[i] == buf[Wrap(start + i, |buf|)]
  {
    seq(used, i requires 0 <= i < used => buf[Wrap(start + i, |buf|)])
  }

  /** Writes data from a position on, in one or two pieces. */
  method Store(buf: array<Byte>, at: nat, data: seq<Byte>)
    requires at < buf.Length && |data| <= buf.Length
    modifies buf
    ensures forall j :: 0 <= j < |data| ==> buf[Wrap(at + j, buf.Length)] == data[j]
    ensures forall p :: 0 <= p < buf.Length && !(at <= p < at + |data|) && !(p + buf.Length < at + |data|) ==>
              buf[p] == old(buf[p])
  {
    var first := Min(buf.Length - at, |data|);
    CopyInto(buf, at, data[..first]);
    ghost var middle := buf[..];
    assert forall j :: 0 <= j < first ==> buf[at..at + first][j] == data[j];
    if |data| > first {
      CopyInto(buf, 0, data[first..]);
      forall j | 0 <= j < |data|
        ensures buf[Wrap(at + j, buf.Length)] == data[j]
      {
        if j < first {
          assert buf[at + j] == middle[at + j];
        } else {
          assert buf[0..|data| - first][j - first] == data[first..][j - first];
        }
      }
    }
  }

  /** Reads bytes from a position on, in one or two pieces. */
  method Load(buf: array<Byte>, at: nat, n: nat, out: array<Byte>)
    requires at < buf.Length && n <= buf.Length && n <= out.Length && out != buf
    modifies out
    ensures out[..n] == Unroll(buf[..], at, n) && out[n..] == old(out[n..])
  {
    var first := Min(buf.Length - at, n);
    CopyInto(out, 0, buf[at..at + first]);
    ghost var middle := out[..];
    if n > first {
      CopyInto(out, first, buf[..n - first]);
    }
    forall j | 0 <= j < n
      ensures out[j] == Unroll(buf[..], at, n)[j]
    {
      if j < first {
        assert out[j] == middle[..first][j] == buf[at..at + first][j];
      } else {
        assert out[j] == out[first..n][j - first] == buf[..n - first][j - first];
      }
    }
  }

  /** Data written right after the bytes held is appended to them. */
  lemma {:induction false} StoreAppends(before: seq<Byte>, after: seq<Byte>, start: nat, used: nat, data: seq<Byte>)
    requires start < |before| == |after| && used + |data| <= |before|
    requires var at := Wrap(start + used, |before|);
             && (forall j :: 0 <= j < |data| ==> after[Wrap(at + j, |after|)] == data[j])
             && (forall p :: 0 <= p < |before| && !(at <= p < at + |data|) && !(p + |before| < at + |data|) ==>
                   after[p] == before[p])
    ensures Unroll(after, start, used + |data|) == Unroll(before, start, used) + data
  {
    var at := Wrap(start + used, |before|);
    forall i | 0 <= i < used + |data|
      ensures Unroll(after, start, used + |data|)[i] == (Unroll(before, start, used) + data)[i]
    {
      if i >= used {
        assert Wrap(start + i, |after|) == Wrap(at + (i - used), |after|);
      }
    }
  }

  /** Moving the reading end forward drops the oldest bytes. */
  lemma {:induction false} Advance(buf: seq<Byte>, start: nat, used: nat, n: nat)
    requires start < |buf| && n <= used <= |buf|
    ensures Unroll(buf, Wrap(start + n, |buf|), used - n) == Unroll(buf, start, used)[n..]
    ensures Unroll(buf, start, n) == Unroll(buf, start, used)[..n]
  {
    var next := Wrap(start + n, |buf|);
    forall i | 0 <= i < used - n
      ensures Unroll(buf, next, used - n)[i] == Unroll(buf, start, used)[n..][i]
    {
      assert Wrap(next + i, |buf|) == Wrap(start + (n + i), |buf|);
    }
  }

  /** The byte ring: a push or pop moves as many bytes as fit or are there. */
  class Ring {
    const buf: array<Byte>
    var head: nat
    var tail: nat
    var used: nat

    ghost predicate Valid()
      reads this
    {
      && tail < buf.Length && used <= buf.Length
      && head == Wrap(tail + used, buf.Length)
    }

    ghost function Contents(): seq<Byte>
      requires Valid()
      reads this, buf
    {
      Unroll(buf[..], tail, used)
    }

    constructor (capacity: nat)
      requires capacity > 0
      ensures Valid() && fresh(buf) && buf.Length == capacity && Contents() == []
    {
      buf := new Byte[capacity](_ => 0);
      head, tail, used := 0, 0, 0;
    }

    method Push(data: seq<Byte>) returns (n: nat)
      requires Valid()
      modifies this, buf
      ensures Valid() && n == Min(|data|, buf.Length - |old(Contents())|)
      ensures Contents() == old(Contents()) + data[..n]
    {
      hide Unroll;
      n := Min(|data|, buf.Length - used);
      if n == 0 {
        return;
      }
      Store(buf, head, data[..n]);
      StoreAppends(old(buf[..]), buf[..], tail, used, data[..n]);
      head := Wrapped(head + n, buf.Length);
      used := used + n;
    }

    method Peek(out: array<Byte>, len: nat) returns (n: nat)
      requires Valid() && out != buf && len <= out.Length
      modifies out
      ensures n == Min(len, |Contents()|) && out[..n] == Contents()[..n] && Contents() == old(Contents())
    {
      hide Unroll;
      n := Min(len, used);
      if n == 0 {
        return;
      }
      Load(buf, tail, n, out);
      Advance(buf[..], tail, used, n);
    }

    method Pop(out: array<Byte>, len: nat) returns (n: nat)
      requires Valid() && out != buf && len <= out.Length
      modifies this, out
      ensures Valid() && n == Min(len, |old(Contents())|)
      ensures out[..n] == old(Contents())[..n] && Contents() == old(Contents())[n..]
    {
      hide Unroll;
      n := Min(len, used);
      if n == 0 {
        return;
      }
      Load(buf, tail, n, out);
      Advance(buf[..], tail, used, n);
      tail := Wrapped(tail + n, buf.Length);
      used := used - n;
    }

    method Discard(len: nat) returns (n: nat)
      requires Valid()
      modifies this
      ensures Valid() && n == Min(len, |old(Contents())|) && Contents() == old(Contents())[n..]
    {
      hide Unroll;
      n := Min(len, used);
      Advance(buf[..], tail, used, n);
      tail := Wrapped(tail + n, buf.Length);
      used := used - n;
    }
  }

  /** What a send call does: takes some bytes, would block, is interrupted, or fails. */
  datatype SendResult = Sent(n: nat) | WouldBlock | Interrupted | Failed

  /** A socket takes no more than it is offered. */
  function Clipped(r: SendResult, offered: nat): SendResult {
    if r.Sent? then Sent(Min(r.n, offered)) else r
  }

  /** A socket with the results its next send calls will have, and the bytes it has taken. */
  class Socket {
    var script: seq<SendResult>
    var received: seq<Byte>

    constructor (script: seq<SendResult>)
      ensures this.script == script && received == []
    {
      this.script := script;
      received := [];
    }

    method Send(offered: seq<Byte>) returns (r: SendResult)
      modifies this
      ensures r == if old(script) == [] then WouldBlock else Clipped(old(script)[0], |offered|)
      ensures script == if old(script) == [] then [] else old(script)[1..]
      ensures received == old(received) + if r.Sent? then offered[..r.n] else []
    {
      if script == [] {
        return WouldBlock;
      }
      r := Clipped(script[0], |offered|);
      script := script[1..];
      if r.Sent? {
        received := received + offered[..r.n];
      }
    }
  }

  // ----- What a flush does with a series of send results -----

  /** Bytes drained, whether a send failed, and the results not used. */
  datatype Drain = Drain(count: nat, failed: bool, rest: seq<SendResult>)

  /** Each send is offered the bytes up to the end of the array or of the queue. */
  function Drained(head: nat, used: nat, capacity: nat, script: seq<SendResult>): (d: Drain)
    requires head < capacity && used <= capacity
    ensures d.count <= used && |d.rest| <= |script|
    decreases |script|
  {
    if used == 0 || script == [] then Drain(0, false, script)
    else
      var r := Clipped(script[0], Min(capacity - head, used));
      match r
      case Sent(w) =>
        if w == 0 then Drain(0, true, script[1..])
        else
          var d := Drained(Wrap(head + w, capacity), used - w, capacity, script[1..]);
          d.(count := w + d.count)
      case WouldBlock => Drain(0, false, script[1..])
      case Interrupted => Drained(head, used, capacity, script[1..])
      case Failed => Drain(0, true, script[1..])
  }

  predicate Fatal(r: SendResult) {
    r.Failed? || r == Sent(0)
  }

  /** The results a flush looked at, in order. */
  function Looked(head: nat, used: nat, capacity: nat, script: seq<SendResult>): seq<SendResult>
    requires head < capacity && used <= capacity
  {
    script[..|script| - |Drained(head, used, capacity, script).rest|]
  }

  /** How a flush that looked at these results has ended. */
  ghost predicate Ended(seen: seq<SendResult>, d: Drain, used: nat) {
    && (d.failed <==> seen != [] && Fatal(seen[|seen| - 1]))
    && (forall k :: 0 <= k < |seen| - 1 ==> !Fatal(seen[k]) && !seen[k].WouldBlock?)
    && (!d.failed ==> d.count == used || (seen != [] && seen[|seen| - 1].WouldBlock?) || d.rest == [])
  }

  lemma {:induction false} EndedCons(r: SendResult, seen: seq<SendResult>, d: Drain, used: nat, w: nat)
    requires Ended(seen, d, used) && !Fatal(r) && !r.WouldBlock?
    ensures Ended([r] + seen, d.(count := w + d.count), used + w)
  {
    var all := [r] + seen;
    assert seen != [] ==> all[|all| - 1] == seen[|seen| - 1];
    forall k | 0 <= k < |all| - 1
      ensures !Fatal(all[k]) && !all[k].WouldBlock?
    {
      assert k > 0 ==> all[k] == seen[k - 1];
    }
  }

  /**
    A flush goes on over sends that take something and over interruptions. It fails if and only if
    it comes upon a failed or empty send; otherwise it ends with the queue empty, at a send that
    would block, or with no result left.
   */
  lemma {:induction false} DrainStops(head: nat, used: nat, capacity: nat, script: seq<SendResult>)
    requires head < capacity && used <= capacity
    ensures var d := Drained(head, used, capacity, script);
            var seen := Looked(head, used, capacity, script);
            seen + d.rest == script && Ended(seen, d, used)
    decreases |script|
  {
    hide Drained, Ended;
    if used == 0 || script == [] {
      DrainNothing(head, used, capacity, script);
      EndedEmpty(script, used);
    } else {
      assert script == [script[0]] + script[1..];
      if Fatal(script[0]) || script[0].WouldBlock? {
        DrainHalts(head, used, capacity, script);
        assert Looked(head, used, capacity, script) == [script[0]];
        EndedAtOnce(script[0], Drained(head, used, capacity, script), used);
      } else {
        var w := if script[0].Sent? then Min(script[0].n, Min(capacity - head, used)) else 0;
        DrainMoves(head, used, capacity, script, w);
        DrainGoesOn(script, Wrap(head + w, capacity), used - w, capacity, w);
      }
    }
  }

  lemma {:induction false} EndedEmpty(script: seq<SendResult>, used: nat)
    requires used == 0 || script == []
    ensures Ended(script[..0], Drain(0, false, script), used) && script[..0] + script == script
  {
  }

  lemma {:induction false} EndedAtOnce(r: SendResult, d: Drain, used: nat)
    requires (d.failed && Fatal(r)) || (!d.failed && r.WouldBlock?)
    ensures Ended([r], d, used)
  {
  }

  lemma {:induction false} DrainGoesOn(script: seq<SendResult>, head: nat, used: nat, capacity: nat, w: nat)
    requires head < capacity && used <= capacity && script != [] && !Fatal(script[0]) && !script[0].WouldBlock?
    ensures var d := Drained(head, used, capacity, script[1..]);
            var seen := script[..|script| - |d.rest|];
            seen + d.rest == script && Ended(seen, d.(count := w + d.count), used + w)
    decreases |script|, 0
  {
    hide Ended, Drained;
    DrainStops(head, used, capacity, script[1..]);
    var d := Drained(head, used, capacity, script[1..]);
    var seen := Looked(head, used, capacity, script[1..]);
    EndedCons(script[0], seen, d, used, w);
    assert script == [script[0]] + script[1..];
    assert script[..|script| - |d.rest|] == [script[0]] + seen;
  }

  /** Sends that each take something empty the queue, if there are as many as bytes. */
  lemma {:induction false} EnoughSendsDrain(head: nat, used: nat, capacity: nat, script: seq<SendResult>)
    requires head < capacity && used <= capacity && used <= |script|
    requires forall k :: 0 <= k < |script| ==> script[k].Sent? && script[k].n > 0
    ensures var d := Drained(head, used, capacity, script); d.count == used && !d.failed
    decreases |script|
  {
    hide Drained;
    if used == 0 {
      DrainNothing(head, used, capacity, script);
    } else {
      var w := Clipped(script[0], Min(capacity - head, used)).n;
      DrainMoves(head, used, capacity, script, w);
      EnoughSendsDrain(Wrap(head + w, capacity), used - w, capacity, script[1..]);
    }
  }

  /** The send queue: bytes are queued all or none, and flushed as far as the socket takes them. */
  class SendQueue {
    const buf: array<Byte>
    var head: nat
    var tail: nat
    var used: nat
    /** Everything queued and everything handed to the socket since creation. */
    ghost var queued: seq<Byte>
    ghost var sent: seq<Byte>

    ghost predicate Shape()
      reads this
    {
      head < buf.Length && used <= buf.Length && tail == Wrap(head + used, buf.Length)
    }

    ghost function Pending(): seq<Byte>
      requires Shape()
      reads this, buf
    {
      Unroll(buf[..], head, used)
    }

    /** Bytes sent followed by bytes pending are the bytes queued. */
    ghost predicate Valid()
      reads this, buf
    {
      Shape() && queued == sent + Pending()
    }

    constructor (capacity: nat)
      requires capacity > 0
      ensures Valid() && fresh(buf) && buf.Length == capacity && queued == [] && sent == []
    {
      buf := new Byte[capacity](_ => 0);
      head, tail, used := 0, 0, 0;
      queued, sent := [], [];
    }

    method Enqueue(data: seq<Byte>) returns (ok: bool)
      requires Valid()
      modifies this, buf
      ensures Valid() && sent == old(sent)
      ensures ok <==> data == [] || |old(Pending())| + |data| <= buf.Length
      ensures queued == if ok then old(queued) + data else old(queued)
    {
      hide Unroll;
      if |data| == 0 {
        return true;
      }
      if used + |data| > buf.Length {
        return false;
      }
      ghost var pending := Pending();
      Store(buf, tail, data);
      StoreAppends(old(buf[..]), buf[..], head, used, data);
      tail := Wrapped(tail + |data|, buf.Length);
      used := used + |data|;
      assert Pending() == pending + data;
      Regroup(sent, pending, data);
      queued := queued + data;
      return true;
    }

    /** The bytes from the reading end to the end of the array are the oldest ones pending. */
    lemma OfferedIsPending(w: nat)
      requires Shape() && w <= Min(buf.Length - head, used)
      ensures buf[head..head + w] == Pending()[..w]
    {
    }

    /** Moves the reading end over bytes that the socket took straight from the array. */
    method Hand(w: nat)
      requires Valid() && w <= Min(buf.Length - head, used)
      modifies this`head, this`used, this`sent
      ensures Valid() && used == old(used) - w && head == Wrap(old(head) + w, buf.Length)
      ensures sent == old(sent) + buf[old(head)..old(head) + w]
      ensures Pending() == old(Pending())[w..] && buf[old(head)..old(head) + w] == old(Pending())[..w]
    {
      OfferedIsPending(w);
      Advance(buf[..], head, used, w);
      WrapTwice(head, w, used, buf.Length);
      hide Unroll, Wrap;
      ghost var bytes, pending := buf[..], Pending();
      SplitAt(sent, pending, w);
      ghost var taken := buf[head..head + w];
      assert taken == pending[..w];
      head := Wrapped(head + w, buf.Length);
      used := used - w;
      sent := sent + taken;
      assert buf[..] == bytes;
      assert Pending() == pending[w..];
      assert sent == old(sent) + pending[..w];
    }

    /** One send of the bytes up to the end of the array; the queue moves over the `w` the socket took. */
    method Offer(socket: Socket) returns (r: SendResult, w: nat)
      requires Valid() && used > 0
      modifies this`head, this`used, this`sent, socket
      ensures Valid() && w == (if r.Sent? then r.n else 0) && w <= |old(Pending())|
      ensures socket.received == old(socket.received) + old(Pending())[..w]
      ensures sent == old(sent) + old(Pending())[..w]
      ensures Pending() == old(Pending())[w..]
      ensures Follows(Drained(old(head), old(used), buf.Length, old(socket.script)), r, w,
                      Drained(head, used, buf.Length, socket.script), socket.script)
      ensures old(socket.script) != [] ==> |socket.script| < |old(socket.script)|
      ensures old(socket.script) == [] ==> r.WouldBlock?
    {
      hide Unroll, Drained, Wrap, Follows;
      var chunk := Min(buf.Length - head, used);
      var offered := buf[head..head + chunk];
      ghost var script := socket.script;
      ghost var pending := Pending();
      r := socket.Send(offered);
      w := if r.Sent? then r.n else 0;
      PrefixOfSlice(buf[..], head, chunk, w);
      OfferedIsPending(w);
      assert offered[..w] == buf[head..head + w] == pending[..w];
      assert socket.received == old(socket.received) + pending[..w];
      DrainFollows(head, used, buf.Length, script, r, w);
      Hand(w);
    }

    /** Sends until the queue is empty, the socket would block or a send fails. */
    method Flush(socket: Socket) returns (total: int)
      requires Valid()
      modifies this`head, this`used, this`sent, socket
      ensures Valid()
      ensures var d := Drained(old(head), old(used), buf.Length, old(socket.script));
              && total == (if d.failed then -1 else d.count) && socket.script == d.rest
              && socket.received == old(socket.received) + old(Pending())[..d.count]
              && sent == old(sent) + old(Pending())[..d.count]
              && Pending() == old(Pending())[d.count..]
    {
      hide Unroll, Drained, Wrap, Same, Follows;
      total := 0;
      ghost var pending := Pending();
      ghost var all := Drained(head, used, buf.Length, socket.script);
      FlushStart(all, pending, old(sent), old(socket.received));
      while used > 0
        invariant Valid() && 0 <= total <= |pending|
        invariant Same(all, total, Drained(head, used, buf.Length, socket.script))
        invariant socket.received == old(socket.received) + pending[..total]
        invariant sent == old(sent) + pending[..total]
        invariant Pending() == pending[total..]
        decreases |socket.script|
      {
        ghost var before := Drained(head, used, buf.Length, socket.script);
        var r, w := Offer(socket);
        NextPiece(old(socket.received), pending, total, w);
        NextPiece(old(sent), pending, total, w);
        FlushStep(all, total, before, r, w, Drained(head, used, buf.Length, socket.script), socket.script);
        if Fatal(r) {
          return -1;
        }
        if r.WouldBlock? {
          return;
        }
        total := total + w;
      }
      DrainNothing(head, used, buf.Length, socket.script);
      FlushEnd(all, total, socket.script);
    }
  }

  lemma {:induction false} FlushStart(all: Drain, pending: seq<Byte>, sent: seq<Byte>, received: seq<Byte>)
    ensures Same(all, 0, all) && pending[0..] == pending
    ensures sent + pending[..0] == sent && received + pending[..0] == received
  {
  }

  lemma {:induction false} FlushStep(all: Drain, done: nat, before: Drain, r: SendResult, w: nat, after: Drain,
                                     script: seq<SendResult>)
    requires Same(all, done, before) && Follows(before, r, w, after, script)
    ensures Fatal(r) || r.WouldBlock? ==> all == Drain(done, Fatal(r), script)
    ensures !Fatal(r) && !r.WouldBlock? ==> Same(all, done + w, after)
  {
  }

  lemma {:induction false} FlushEnd(all: Drain, done: nat, script: seq<SendResult>)
    requires Same(all, done, Drain(0, false, script))
    ensures all == Drain(done, false, script)
  {
  }

  /** A flush that has drained `done` bytes and has the rest before it. */
  predicate Same(all: Drain, done: int, rest: Drain) {
    all.count == done + rest.count && all.failed == rest.failed && all.rest == rest.rest
  }

  /** How a send changes what is before a flush. */
  predicate Follows(before: Drain, r: SendResult, w: nat, after: Drain, script: seq<SendResult>) {
    if Fatal(r) || r.WouldBlock? then before == Drain(0, Fatal(r), script) else Same(before, w, after)
  }

  lemma {:induction false} DrainFollows(head: nat, used: nat, capacity: nat, script: seq<SendResult>, r: SendResult, w: nat)
    requires head < capacity && 0 < used <= capacity
    requires r == if script == [] then WouldBlock else Clipped(script[0], Min(capacity - head, used))
    requires w == if r.Sent? then r.n else 0
    ensures w <= used && head + w < 2 * capacity
    ensures var rest := if script == [] then [] else script[1..];
            Follows(Drained(head, used, capacity, script), r, w,
                    Drained(Wrap(head + w, capacity), used - w, capacity, rest), rest)
  {
    if script == [] {
      DrainNothing(head, used, capacity, script);
    } else if Fatal(script[0]) || script[0].WouldBlock? {
      DrainHalts(head, used, capacity, script);
    } else {
      DrainMoves(head, used, capacity, script, w);
    }
  }

  /** A flush with nothing to send or no result left is at its end. */
  lemma {:induction false} DrainNothing(head: nat, used: nat, capacity: nat, script: seq<SendResult>)
    requires head < capacity && used <= capacity && (used == 0 || script == [])
    ensures Drained(head, used, capacity, script) == Drain(0, false, script)
  {
  }

  /** So it is at a send that takes nothing, would block or fails. */
  lemma {:induction false} DrainHalts(head: nat, used: nat, capacity: nat, script: seq<SendResult>)
    requires head < capacity && 0 < used <= capacity && script != []
    requires Fatal(script[0]) || script[0].WouldBlock?
    ensures Drained(head, used, capacity, script) == Drain(0, Fatal(script[0]), script[1..])
  {
  }

  /** After a send that takes something, or an interruption, it goes on from where that leaves it. */
  lemma {:induction false} DrainMoves(head: nat, used: nat, capacity: nat, script: seq<SendResult>, w: nat)
    requires head < capacity && 0 < used <= capacity && script != []
    requires !Fatal(script[0]) && !script[0].WouldBlock?
    requires w == if script[0].Sent? then Min(script[0].n, Min(capacity - head, used)) else 0
    ensures head + w < 2 * capacity && w <= used
    ensures var d := Drained(Wrap(head + w, capacity), used - w, capacity, script[1..]);
            var e := Drained(head, used, capacity, script);
            e.count == w + d.count && e.failed == d.failed && e.rest == d.rest
  {
  }

  lemma {:induction false} PrefixOfSlice(s: seq<Byte>, at: nat, n: nat, w: nat)
    requires at + n <= |s| && w <= n
    ensures s[at..at + n][..w] == s[at..at + w]
  {
  }

  lemma {:induction false} NextPiece(before: seq<Byte>, all: seq<Byte>, done: nat, w: nat)
    requires done + w <= |all|
    ensures before + all[..done] + all[done..][..w] == before + all[..done + w]
    ensures all[done..][w..] == all[done + w..]
  {
    assert all[..done] + all[done..][..w] == all[..done + w];
  }

  /** Creation refuses a capacity of zero. */
  method NewRing(capacity: nat) returns (r: Ring?)
    ensures r == null <==> capacity == 0
    ensures r != null ==> fresh(r) && fresh(r.buf) && r.Valid() && r.buf.Length == capacity && r.Contents() == []
  {
    if capacity == 0 {
      return null;
    }
    r := new Ring(capacity);
  }

  method NewSendQueue(capacity: nat) returns (q: SendQueue?)
    ensures q == null <==> capacity == 0
    ensures q != null ==> fresh(q) && fresh(q.buf) && q.Valid() && q.buf.Length == capacity && q.queued == [] && q.sent == []
  {
    if capacity == 0 {
      return null;
    }
    q := new SendQueue(capacity);
  }
}
