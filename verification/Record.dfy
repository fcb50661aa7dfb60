/** The nonce of a record: the static IV with the record's number xor-ed into its last eight bytes. */
module Nonce {
  import opened Common
  import opened BigEndian

  const IV_LEN: nat := 12

  function Pow2(k: nat): nat {
    if k == 0 then 1 else 2 * Pow2(k - 1)
  }

  /** Bitwise exclusive or of the low `k` bits. */
  function XorBits(a: nat, b: nat, k: nat): (r: nat)
    ensures r < Pow2(k)
  {
    if k == 0 then 0 else (if a % 2 != b % 2 then 1 else 0) + 2 * XorBits(a / 2, b / 2, k - 1)
  }

  function XorByte(a: Byte, b: Byte): Byte {
    assert Pow2(4) == 16;
    XorBits(a, b, 8)
  }

  lemma {:induction false} XorBitsCancel(a: nat, b: nat, c: nat, k: nat)
    requires XorBits(a, b, k) == XorBits(a, c, k) && b < Pow2(k) && c < Pow2(k)
    ensures b == c
  {
    if k == 0 {
    } else {
      XorBitsCancel(a / 2, b / 2, c / 2, k - 1);
    }
  }

  lemma {:induction false} XorCancel(a: Byte, b: Byte, c: Byte)
    requires XorByte(a, b) == XorByte(a, c)
    ensures b == c
  {
    assert Pow2(4) == 16;
    XorBitsCancel(a, b, c, 8);
  }

  function Xored(a: seq<Byte>, b: seq<Byte>): seq<Byte>
    requires |a| == |b|
  {
    seq(|a|, i requires 0 <= i < |a| => XorByte(a[i], b[i]))
  }

  function Build(iv: seq<Byte>, number: nat): (r: seq<Byte>)
    requires |iv| == IV_LEN
    ensures |r| == IV_LEN
  {
    iv[..4] + Xored(iv[4..], Pack(number, 8))
  }

  /** Different numbers give different nonces under one IV. */
  lemma {:induction false} NoncesDiffer(iv: seq<Byte>, a: nat, b: nat)
    requires |iv| == IV_LEN && a < U64_LIMIT && b < U64_LIMIT && a != b
    ensures Build(iv, a) != Build(iv, b)
  {
    hide Pack, Unpack, XorBits;
    var x, y := Pack(a, 8), Pack(b, 8);
    if Build(iv, a) == Build(iv, b) {
      assert Build(iv, a)[4..] == Xored(iv[4..], x) && Build(iv, b)[4..] == Xored(iv[4..], y);
      forall i | 0 <= i < 8
        ensures x[i] == y[i]
      {
        assert Xored(iv[4..], x)[i] == Xored(iv[4..], y)[i];
        XorCancel(iv[4..][i], x[i], y[i]);
      }
      assert x == y;
      NumbersFit(a);
      NumbersFit(b);
      UnpackPack(a, 8);
      UnpackPack(b, 8);
      assert false;
    }
  }

  lemma {:induction false} NumbersFit(a: nat)
    requires a < U64_LIMIT
    ensures a < Limit(8)
  {
    assert Limit(2) == 0x1_0000 && Limit(4) == 0x1_0000_0000 && Limit(6) == 0x1_0000_0000_0000;
  }

  method BuildNonce(iv: seq<Byte>, number: nat) returns (nonce: array<Byte>)
    requires |iv| == IV_LEN
    ensures fresh(nonce) && nonce[..] == Build(iv, number)
  {
    hide Pack, XorBits;
    nonce := new Byte[IV_LEN](i requires 0 <= i < IV_LEN => iv[i]);
    var numberBytes := Pack(number, 8);
    for i := 0 to 8
      invariant forall k :: 0 <= k < 4 + i ==> nonce[k] == Build(iv, number)[k]
      invariant forall k :: 4 + i <= k < IV_LEN ==> nonce[k] == iv[k]
    {
      assert Build(iv, number)[4 + i] == Xored(iv[4..], numberBytes)[i] == XorByte(iv[4 + i], numberBytes[i]);
      nonce[IV_LEN - 8 + i] := XorByte(nonce[IV_LEN - 8 + i], numberBytes[i]);
    }
  }

  /** The nonce of the next record; refuses to hand out the last number, after which counting would wrap. */
  method NextNonce(iv: seq<Byte>, number: nat) returns (nonce: Option<seq<Byte>>, next: nat)
    requires |iv| == IV_LEN && number < U64_LIMIT
    ensures nonce.None? <==> number == U64_LIMIT - 1
    ensures nonce.Some? ==> nonce.value == Build(iv, number) && next == number + 1
    ensures nonce.None? ==> next == number
    ensures next < U64_LIMIT
  {
    if number == U64_LIMIT - 1 {
      return None, number;
    }
    var built := BuildNonce(iv, number);
    return Some(built[..]), number + 1;
  }
}

/** Records: a five-byte header, which the AEAD authenticates, and the sealed payload. */
module Record {
  import opened Common
  import opened BigEndian
  import opened Files
  import Nonce
  import Reassembly

  const HEADER_LEN: nat := 5
  const TAG_LEN: nat := 16
  const VERSION: nat := 0x0301
  const MAX_PLAINTEXT: nat := 16384
  const MAX_CIPHERTEXT: nat := MAX_PLAINTEXT + TAG_LEN
  const MAX_RECORD: nat := HEADER_LEN + MAX_CIPHERTEXT

  type Bytes = seq<Byte>

  /** Sealing gives ciphertext and tag in one sequence; unsealing gives the plaintext or nothing. */
  datatype Aead = Aead(seal: (Bytes, Bytes, Bytes, Bytes) -> Bytes, unseal: (Bytes, Bytes, Bytes, Bytes) -> Option<Bytes>)

  /** Unsealing accepts exactly what sealing makes, under the same key, nonce and header, and under no other nonce. */
  ghost predicate Ideal(a: Aead) {
    && (forall key, nonce, ad, pt :: |a.seal(key, nonce, ad, pt)| == |pt| + TAG_LEN)
    && (forall key, nonce, ad, pt :: a.unseal(key, nonce, ad, a.seal(key, nonce, ad, pt)) == Some(pt))
    && (forall key, nonce, ad, ct :: a.unseal(key, nonce, ad, ct).Some? ==>
          ct == a.seal(key, nonce, ad, a.unseal(key, nonce, ad, ct).value))
    && (forall key, nonce, other, ad, pt :: |nonce| == |other| == Nonce.IV_LEN && nonce != other ==>
          a.unseal(key, other, ad, a.seal(key, nonce, ad, pt)).None?)
  }

  /** One direction of a connection. */
  datatype Channel = Channel(aead: Aead, key: Bytes, iv: Bytes)
  {
    ghost predicate Valid() {
      |iv| == Nonce.IV_LEN && Ideal(aead)
    }
  }

  datatype Message = Message(kind: Byte, text: Bytes)

  function Header(kind: Byte, ctLen: nat): (h: Bytes)
    ensures |h| == HEADER_LEN
  {
    [kind] + Pack(VERSION, 2) + Pack(ctLen, 2)
  }

  function Seal(c: Channel, number: nat, m: Message): Bytes
    requires |c.iv| == Nonce.IV_LEN
  {
    var h := Header(m.kind, |m.text| + TAG_LEN);
    h + c.aead.seal(c.key, Nonce.Build(c.iv, number), h, m.text)
  }

  /** The size of the record that starts with this header, if the header is well formed. */
  function PeekLen(header: Bytes): Option<nat>
    requires |header| >= HEADER_LEN
  {
    var ctLen := Unpack(header[3..5]);
    if Unpack(header[1..3]) != VERSION || ctLen < TAG_LEN || ctLen > MAX_CIPHERTEXT then None
    else Some(HEADER_LEN + ctLen)
  }

  function Open(c: Channel, number: nat, wire: Bytes, capacity: nat): Option<Message>
    requires |c.iv| == Nonce.IV_LEN
  {
    if |wire| < HEADER_LEN + TAG_LEN || PeekLen(wire) != Some(|wire|) || capacity < |wire| - HEADER_LEN - TAG_LEN then None
    else
      var text := c.aead.unseal(c.key, Nonce.Build(c.iv, number), wire[..HEADER_LEN], wire[HEADER_LEN..]);
      if text.None? then None else Some(Message(wire[0], text.value))
  }

  // ----- Opening undoes sealing, and nothing else opens -----

  lemma {:induction false} HeaderParts(kind: Bytes, version: Bytes, length: Bytes, buf: Bytes)
    requires |kind| == 1 && |version| == |length| == 2
    requires |buf| >= HEADER_LEN && buf[..HEADER_LEN] == kind + version + length
    ensures buf[0] == kind[0] && buf[1..3] == version && buf[3..5] == length
  {
    var h := kind + version + length;
    assert h[1..3] == version && h[3..5] == length;
    assert buf[0] == buf[..HEADER_LEN][0] && buf[1..3] == buf[..HEADER_LEN][1..3];
    assert buf[3..5] == buf[..HEADER_LEN][3..5];
  }

  lemma {:induction false} PeekHeader(kind: Byte, ctLen: nat, buf: Bytes)
    requires TAG_LEN <= ctLen <= MAX_CIPHERTEXT && |buf| >= HEADER_LEN && buf[..HEADER_LEN] == Header(kind, ctLen)
    ensures PeekLen(buf) == Some(HEADER_LEN + ctLen) && buf[0] == kind
  {
    assert Limit(2) == 0x1_0000;
    hide Pack, Unpack, Limit;
    UnpackPack(VERSION, 2);
    UnpackPack(ctLen, 2);
    HeaderParts([kind], Pack(VERSION, 2), Pack(ctLen, 2), buf);
  }

  lemma {:induction false} SealedSize(c: Channel, number: nat, m: Message)
    requires c.Valid()
    ensures |Seal(c, number, m)| == HEADER_LEN + |m.text| + TAG_LEN
    ensures Seal(c, number, m)[..HEADER_LEN] == Header(m.kind, |m.text| + TAG_LEN)
  {
  }

  /** A sealed record opens to its message under the same number, if there is room for the text. */
  lemma {:induction false} OpenSealed(c: Channel, number: nat, m: Message, capacity: nat)
    requires c.Valid() && |m.text| <= MAX_PLAINTEXT && |m.text| <= capacity
    ensures Open(c, number, Seal(c, number, m), capacity) == Some(m)
  {
    hide Header, PeekLen;
    var wire := Seal(c, number, m);
    SealedSize(c, number, m);
    PeekHeader(m.kind, |m.text| + TAG_LEN, wire);
    assert wire[HEADER_LEN..] ==
           c.aead.seal(c.key, Nonce.Build(c.iv, number), Header(m.kind, |m.text| + TAG_LEN), m.text);
  }

  /** A record sealed under one number opens under no other. */
  lemma {:induction false} OpensOnlyInTurn(c: Channel, i: nat, j: nat, m: Message, capacity: nat)
    requires c.Valid() && i < U64_LIMIT && j < U64_LIMIT && i != j && |m.text| <= MAX_PLAINTEXT
    ensures Open(c, j, Seal(c, i, m), capacity).None?
  {
    hide Header, PeekLen, Nonce.Build;
    Nonce.NoncesDiffer(c.iv, i, j);
    SealedSize(c, i, m);
    var wire, h := Seal(c, i, m), Header(m.kind, |m.text| + TAG_LEN);
    assert wire[HEADER_LEN..] == c.aead.seal(c.key, Nonce.Build(c.iv, i), h, m.text);
  }

  lemma {:induction false} HeaderOf(wire: Bytes)
    requires |wire| >= HEADER_LEN && PeekLen(wire) == Some(|wire|)
    ensures wire[..HEADER_LEN] == Header(wire[0], |wire| - HEADER_LEN)
  {
    PackUnpack(wire[1..3]);
    PackUnpack(wire[3..5]);
    assert wire[..HEADER_LEN] == [wire[0]] + wire[1..3] + wire[3..5];
  }

  /** Whatever opens is the sealed record of the message it gives, under that very number and no other. */
  lemma {:induction false} OpenedWasSealed(c: Channel, number: nat, wire: Bytes, capacity: nat)
    requires c.Valid() && Open(c, number, wire, capacity).Some?
    ensures var m := Open(c, number, wire, capacity).value;
            wire == Seal(c, number, m) && |m.text| <= MAX_PLAINTEXT && |m.text| <= capacity
    ensures number < U64_LIMIT ==>
              forall j: nat, room: nat :: j < U64_LIMIT && j != number ==> Open(c, j, wire, room).None?
  {
    hide Header;
    var m := Open(c, number, wire, capacity).value;
    HeaderOf(wire);
    var ct := wire[HEADER_LEN..];
    assert ct == c.aead.seal(c.key, Nonce.Build(c.iv, number), wire[..HEADER_LEN], m.text);
    assert |ct| == |m.text| + TAG_LEN;
    assert wire == wire[..HEADER_LEN] + ct == Seal(c, number, m);
    hide Open, Seal;
    forall j: nat, room: nat | number < U64_LIMIT && j < U64_LIMIT && j != number
      ensures Open(c, j, wire, room).None?
    {
      OpensOnlyInTurn(c, number, j, m, room);
    }
  }

  // ----- Cutting records out of a stream -----

  function Cut(buf: Bytes): Reassembly.Cut {
    if |buf| < HEADER_LEN then Reassembly.More
    else
      var n := PeekLen(buf);
      if n.None? then Reassembly.Bad
      else if |buf| < n.value then Reassembly.More
      else Reassembly.Unit(n.value)
  }

  /** With a largest record buffered there is always something to take, or a malformed header. */
  lemma {:induction false} NeverStuck(buf: Bytes)
    requires |buf| >= MAX_RECORD
    ensures !Cut(buf).More?
  {
  }

  lemma {:induction false} RecordsDelimitThemselves(c: Channel, number: nat, m: Message)
    requires c.Valid() && |m.text| <= MAX_PLAINTEXT
    ensures Reassembly.SelfDelimiting(Cut, Seal(c, number, m))
  {
    hide PeekLen, Seal, Header;
    var u := Seal(c, number, m);
    SealedSize(c, number, m);
    forall tail
      ensures Cut(u + tail) == Reassembly.Unit(|u|)
    {
      assert (u + tail)[..HEADER_LEN] == u[..HEADER_LEN];
      PeekHeader(m.kind, |m.text| + TAG_LEN, u + tail);
    }
    forall k | 0 <= k < |u|
      ensures Cut(u[..k]) == Reassembly.More
    {
      if k >= HEADER_LEN {
        assert u[..k][..HEADER_LEN] == u[..HEADER_LEN];
        PeekHeader(m.kind, |m.text| + TAG_LEN, u[..k]);
      }
    }
  }

  function SealAll(c: Channel, first: nat, ms: seq<Message>): seq<Bytes>
    requires |c.iv| == Nonce.IV_LEN
  {
    seq(|ms|, i requires 0 <= i < |ms| => Seal(c, first + i, ms[i]))
  }

  /**
    Messages sealed under consecutive numbers, offered in any pieces to a buffer of any size and
    opened with a counter that starts at the same number: what has been opened is exactly the first
    messages, and all of them once the stream is drained. A buffer for a largest record is never full
    with nothing to take.
   */
  lemma {:induction false} MessagesComeOut(c: Channel, first: nat, ms: seq<Message>,
                                           actions: seq<Reassembly.Action>, room: nat, capacity: nat)
    requires c.Valid() && capacity >= MAX_PLAINTEXT
    requires forall i :: 0 <= i < |ms| ==> |ms[i].text| <= MAX_PLAINTEXT
    ensures var s := Reassembly.Run(Cut, Some(room), Reassembly.Start(SealAll(c, first, ms)), actions);
            && !s.bad && |s.taken| <= |ms|
            && (forall i :: 0 <= i < |s.taken| ==> Open(c, first + i, s.taken[i], capacity) == Some(ms[i]))
            && (s.pending == [] && Cut(s.buffer).More? ==> |s.taken| == |ms| && s.buffer == [])
            && (room >= MAX_RECORD && Cut(s.buffer).More? ==> |s.buffer| < room)
  {
    hide Seal, Open;
    var units := SealAll(c, first, ms);
    forall i | 0 <= i < |units|
      ensures Reassembly.SelfDelimiting(Cut, units[i])
    {
      RecordsDelimitThemselves(c, first + i, ms[i]);
    }
    Reassembly.StartInStep(units);
    Reassembly.RunKeeps(Cut, Some(room), Reassembly.Start(units), units, actions);
    var s := Reassembly.Run(Cut, Some(room), Reassembly.Start(units), actions);
    forall i | 0 <= i < |s.taken|
      ensures Open(c, first + i, s.taken[i], capacity) == Some(ms[i])
    {
      OpenSealed(c, first + i, ms[i], capacity);
      assert s.taken[i] == units[i];
    }
    if s.pending == [] && Cut(s.buffer).More? {
      Reassembly.DrainedMeansAll(Cut, s, units);
    }
    if |s.buffer| >= MAX_RECORD {
      NeverStuck(s.buffer);
    }
  }

  // ----- Records that arrive out of turn -----

  /** A record with the number it was sealed under. */
  datatype Arrival = Arrival(number: nat, message: Message)

  /** What a receiver opens that counts up from `first` and stops at the first record that does not open. */
  function OpenAll(c: Channel, first: nat, wires: seq<Bytes>, capacity: nat): seq<Message>
    requires |c.iv| == Nonce.IV_LEN
    decreases |wires|
  {
    if wires == [] then []
    else
      var m := Open(c, first, wires[0], capacity);
      if m.None? then [] else [m.value] + OpenAll(c, first + 1, wires[1..], capacity)
  }

  /** The arrivals up to the first one that is not in its turn. */
  function InTurn(first: nat, arrivals: seq<Arrival>): seq<Message>
    decreases |arrivals|
  {
    if arrivals == [] || arrivals[0].number != first then []
    else [arrivals[0].message] + InTurn(first + 1, arrivals[1..])
  }

  function Wires(c: Channel, arrivals: seq<Arrival>): seq<Bytes>
    requires |c.iv| == Nonce.IV_LEN
  {
    seq(|arrivals|, k requires 0 <= k < |arrivals| => Seal(c, arrivals[k].number, arrivals[k].message))
  }

  /**
    Records of a channel that are lost, repeated or reordered in any way: what is opened is exactly what
    came in its turn, and the first record that did not is not opened.
   */
  lemma {:induction false} OnlyInTurnOpens(c: Channel, first: nat, arrivals: seq<Arrival>, capacity: nat)
    requires c.Valid() && capacity >= MAX_PLAINTEXT && first + |arrivals| <= U64_LIMIT
    requires forall k :: 0 <= k < |arrivals| ==>
               arrivals[k].number < U64_LIMIT && |arrivals[k].message.text| <= MAX_PLAINTEXT
    ensures OpenAll(c, first, Wires(c, arrivals), capacity) == InTurn(first, arrivals)
    decreases |arrivals|
  {
    hide Open, Seal, Ideal;
    if arrivals == [] {
    } else {
      var a := arrivals[0];
      assert Wires(c, arrivals)[1..] == Wires(c, arrivals[1..]);
      if a.number == first {
        OpenSealed(c, first, a.message, capacity);
        OnlyInTurnOpens(c, first + 1, arrivals[1..], capacity);
      } else {
        OpensOnlyInTurn(c, a.number, first, a.message, capacity);
      }
    }
  }

  // ----- The program's own steps, on caller buffers -----

  /** Writes a sealed record to the front of a buffer, if the text is not too long and the record fits. */
  method SealRecord(c: Channel, number: nat, m: Message, out: array<Byte>, capacity: nat) returns (n: int)
    requires c.Valid() && capacity <= out.Length
    modifies out
    ensures n >= 0 <==> |m.text| <= MAX_PLAINTEXT && HEADER_LEN + |m.text| + TAG_LEN <= capacity
    ensures n >= 0 ==> n <= capacity && out[..n] == Seal(c, number, m) && out[n..] == old(out[n..])
    ensures n < 0 ==> n == -1 && out[..] == old(out[..])
  {
    hide Pack, Nonce.Build;
    if |m.text| > MAX_PLAINTEXT {
      return -1;
    }
    var need := HEADER_LEN + |m.text| + TAG_LEN;
    if capacity < need {
      return -1;
    }
    SealedSize(c, number, m);
    var header := [m.kind] + Pack(VERSION, 2) + Pack(|m.text| + TAG_LEN, 2);
    CopyInto(out, 0, header);
    var nonce := Nonce.BuildNonce(c.iv, number);
    assert out[..HEADER_LEN] == header;
    var sealed := c.aead.seal(c.key, nonce[..], out[..HEADER_LEN], m.text);
    CopyInto(out, HEADER_LEN, sealed);
    assert out[..need] == header + sealed;
    return need;
  }

  /** Opens a complete record into a buffer; after a failed authentication the text area is zero. */
  method OpenRecord(c: Channel, number: nat, wire: Bytes, out: array<Byte>, capacity: nat)
    returns (kind: Option<Byte>, n: nat)
    requires c.Valid() && capacity <= out.Length
    modifies out
    ensures kind.Some? <==> Open(c, number, wire, capacity).Some?
    ensures kind.Some? ==> n <= capacity && Open(c, number, wire, capacity) == Some(Message(kind.value, out[..n]))
    ensures kind.None? ==> n <= capacity && (forall k :: 0 <= k < n ==> out[k] == 0) && out[n..] == old(out[n..])
  {
    hide PeekLen, Nonce.Build, Seal;
    n := 0;
    if |wire| < HEADER_LEN + TAG_LEN {
      return None, 0;
    }
    var expected := PeekLen(wire);
    if expected.None? || expected.value != |wire| {
      return None, 0;
    }
    n := |wire| - HEADER_LEN - TAG_LEN;
    if capacity < n {
      return None, 0;
    }
    var nonce := Nonce.BuildNonce(c.iv, number);
    var text := c.aead.unseal(c.key, nonce[..], wire[..HEADER_LEN], wire[HEADER_LEN..]);
    if text.None? {
      CopyInto(out, 0, seq(n, _ => 0));
      assert forall k :: 0 <= k < n ==> out[..n][k] == 0;
      assert out[n..] == old(out[n..]);
      return None, n;
    }
    OpenedWasSealed(c, number, wire, capacity);
    SealedSize(c, number, Message(wire[0], text.value));
    CopyInto(out, 0, text.value);
    return Some(wire[0]), n;
  }

  /** What a take returns: a record's size, zero for not yet, or minus one. */
  function TakeResult(buf: Bytes, capacity: nat): int {
    if |buf| < HEADER_LEN then 0
    else
      var n := PeekLen(buf);
      if n.None? || n.value > capacity then -1 else if |buf| < n.value then 0 else n.value
  }

  /** With room for a largest record, a take does exactly what the cutter says. */
  lemma {:induction false} TakeIsCut(buf: Bytes, capacity: nat)
    requires capacity >= MAX_RECORD
    ensures TakeResult(buf, capacity) ==
            match Cut(buf)
            case More => 0
            case Bad => -1
            case Unit(size) => size
    ensures Cut(buf).Unit? ==> 0 < Cut(buf).size <= |buf|
  {
  }

  /** The receive buffer: pushed bytes at the front of a fixed array. */
  class RecvBuf {
    const buf: array<Byte>
    var used: nat

    ghost predicate Valid()
      reads this
    {
      used <= buf.Length
    }

    function Contents(): Bytes
      requires Valid()
      reads this, buf
    {
      buf[..used]
    }

    constructor (capacity: nat)
      ensures Valid() && fresh(buf) && buf.Length == capacity && Contents() == []
    {
      buf := new Byte[capacity](_ => 0);
      used := 0;
    }

    method Push(data: Bytes) returns (ok: bool)
      requires Valid()
      modifies this, buf
      ensures Valid() && (ok <==> |old(Contents())| + |data| <= buf.Length)
      ensures Contents() == if ok then old(Contents()) + data else old(Contents())
    {
      if used + |data| > buf.Length {
        return false;
      }
      CopyInto(buf, used, data);
      used := used + |data|;
      assert buf[..used] == buf[..used - |data|] + data;
      return true;
    }

    /** Moves the first whole record to `out` and slides the rest of the buffer to the front. */
    method Take(out: array<Byte>, capacity: nat) returns (n: int)
      requires Valid() && out != buf && capacity <= out.Length
      modifies this, buf, out
      ensures Valid()
      ensures n == TakeResult(old(Contents()), capacity)
      ensures n <= |old(Contents())| && n <= capacity
      ensures n > 0 ==> out[..n] == old(Contents())[..n] && Contents() == old(Contents())[n..]
      ensures n <= 0 ==> Contents() == old(Contents()) && out[..] == old(out[..])
    {
      hide PeekLen;
      if used < HEADER_LEN {
        return 0;
      }
      var expected := PeekLen(buf[..used]);
      if expected.None? {
        return -1;
      }
      PeekIsPositive(buf[..used]);
      if expected.value > capacity {
        return -1;
      }
      if used < expected.value {
        return 0;
      }
      n := expected.value;
      CopyInto(out, 0, buf[..n]);
      assert out[..n] == old(buf[..used])[..n];
      var leftover := used - n;
      forall i | 0 <= i < leftover {
        buf[i] := buf[n + i];
      }
      used := leftover;
    }
  }

  /** Creation refuses an empty buffer. */
  method NewRecvBuf(capacity: nat) returns (rb: RecvBuf?)
    ensures rb == null <==> capacity == 0
    ensures rb != null ==> fresh(rb) && fresh(rb.buf) && rb.Valid() && rb.buf.Length == capacity && rb.Contents() == []
  {
    if capacity == 0 {
      return null;
    }
    rb := new RecvBuf(capacity);
  }

  lemma {:induction false} PeekIsPositive(buf: Bytes)
    requires |buf| >= HEADER_LEN && PeekLen(buf).Some?
    ensures 0 < PeekLen(buf).value <= MAX_RECORD
  {
  }

  // ----- Ideal AEADs exist: one whose tag is the nonce -----

  function NonceTag(nonce: Bytes): (tag: Bytes)
    ensures |tag| == TAG_LEN
  {
    if |nonce| == Nonce.IV_LEN then nonce + [0, 0, 0, 0] else seq(TAG_LEN, _ => 0)
  }

  function TaggedSeal(key: Bytes, nonce: Bytes, ad: Bytes, text: Bytes): Bytes {
    text + NonceTag(nonce)
  }

  function TaggedUnseal(key: Bytes, nonce: Bytes, ad: Bytes, ct: Bytes): Option<Bytes> {
    if |ct| >= TAG_LEN && ct[|ct| - TAG_LEN..] == NonceTag(nonce) then Some(ct[..|ct| - TAG_LEN]) else None
  }

  lemma {:induction false} TaggedRoundTrip(key: Bytes, nonce: Bytes, ad: Bytes, text: Bytes)
    ensures TaggedUnseal(key, nonce, ad, TaggedSeal(key, nonce, ad, text)) == Some(text)
  {
    var ct := TaggedSeal(key, nonce, ad, text);
    assert ct[..|text|] == text && ct[|text|..] == NonceTag(nonce);
  }

  lemma {:induction false} TaggedByNonce(key: Bytes, nonce: Bytes, other: Bytes, ad: Bytes, text: Bytes)
    requires |nonce| == |other| == Nonce.IV_LEN && nonce != other
    ensures TaggedUnseal(key, other, ad, TaggedSeal(key, nonce, ad, text)).None?
  {
    var ct := TaggedSeal(key, nonce, ad, text);
    assert ct[|text|..] == NonceTag(nonce);
    assert NonceTag(nonce)[..Nonce.IV_LEN] == nonce && NonceTag(other)[..Nonce.IV_LEN] == other;
  }

  lemma {:induction false} IdealAeadExists()
    ensures Ideal(Aead(TaggedSeal, TaggedUnseal))
  {
    hide NonceTag;
    forall key, nonce, ad, text
      ensures TaggedUnseal(key, nonce, ad, TaggedSeal(key, nonce, ad, text)) == Some(text)
    {
      TaggedRoundTrip(key, nonce, ad, text);
    }
    forall key, nonce, other, ad, text | |nonce| == |other| == Nonce.IV_LEN && nonce != other
      ensures TaggedUnseal(key, other, ad, TaggedSeal(key, nonce, ad, text)).None?
    {
      TaggedByNonce(key, nonce, other, ad, text);
    }
  }
}
