/** The UTF-8 recogniser against the encoding of sections 3 and 4 of RFC 3629. */
module Utf8 {
  import opened Common

  /** A Unicode scalar value: a code point that is not a surrogate. */
  predicate Scalar(c: nat) {
    c <= 0x10FFFF && !(0xD800 <= c <= 0xDFFF)
  }

  function Encode(c: nat): (r: seq<Byte>)
    requires Scalar(c)
    ensures 1 <= |r| <= 4
  {
    if c < 0x80 then [c]
    else if c < 0x800 then [0xC0 + c / 64, 0x80 + c % 64]
    else if c < 0x10000 then [0xE0 + c / 4096, 0x80 + c / 64 % 64, 0x80 + c % 64]
    else [0xF0 + c / 262144, 0x80 + c / 4096 % 64, 0x80 + c / 64 % 64, 0x80 + c % 64]
  }

  function EncodeAll(text: seq<nat>): seq<Byte>
    requires forall i :: 0 <= i < |text| ==> Scalar(text[i])
  {
    if text == [] then [] else Encode(text[0]) + EncodeAll(text[1..])
  }

  /** Some sequence of scalar values is encoded by these bytes. */
  ghost predicate WellFormed(buf: seq<Byte>) {
    exists text: seq<nat> :: (forall i :: 0 <= i < |text| ==> Scalar(text[i])) && EncodeAll(text) == buf
  }

  // ----- One character -----

  /** The payload bits and the number of further bytes that a leading byte announces. */
  function Lead(b: Byte): Option<(nat, nat)> {
    if 0xC0 <= b < 0xE0 then Some((b - 0xC0, 1))
    else if 0xE0 <= b < 0xF0 then Some((b - 0xE0, 2))
    else if 0xF0 <= b < 0xF8 then Some((b - 0xF0, 3))
    else None
  }

  /** The smallest code point that needs so many further bytes. */
  function Least(extra: nat): nat {
    if extra == 1 then 0x80 else if extra == 2 then 0x800 else 0x10000
  }

  /** Appends the payloads of the next `n` bytes, which must be continuation bytes. */
  function Continue(buf: seq<Byte>, at: nat, n: nat, cp: nat): Option<nat>
    decreases n
  {
    if n == 0 then Some(cp)
    else if at >= |buf| || !(0x80 <= buf[at] < 0xC0) then None
    else Continue(buf, at + 1, n - 1, cp * 64 + (buf[at] - 0x80))
  }

  /** The character that the recogniser accepts at a place, and its length. */
  function Char(buf: seq<Byte>, i: nat): (r: Option<(nat, nat)>)
    requires i < |buf|
    ensures r.Some? ==> 1 <= r.value.1
  {
    if buf[i] < 0x80 then Some((buf[i], 1))
    else
      var l := Lead(buf[i]);
      if l.None? || i + l.value.1 >= |buf| then None
      else
        var cp := Continue(buf, i + 1, l.value.1, l.value.0);
        if cp.None? || cp.value < Least(l.value.1) || !Scalar(cp.value) then None
        else Some((cp.value, 1 + l.value.1))
  }

  /** The code point of two, three and four digits to the base 64. */
  function Two(x: nat, y: nat): nat {
    x * 64 + y
  }

  function Three(x: nat, y: nat, z: nat): nat {
    Two(x, y) * 64 + z
  }

  function Four(x: nat, y: nat, z: nat, w: nat): nat {
    Three(x, y, z) * 64 + w
  }

  predicate Tail(b: Byte) {
    0x80 <= b < 0xC0
  }

  lemma {:induction false} EncodeTwo(x: nat, y: nat)
    requires y < 64 && 0x80 <= Two(x, y) < 0x800
    ensures x < 0x20 && Encode(Two(x, y)) == [0xC0 + x, 0x80 + y]
  {
  }

  lemma {:induction false} EncodeThree(x: nat, y: nat, z: nat)
    requires y < 64 && z < 64 && 0x800 <= Three(x, y, z) < 0x10000 && Scalar(Three(x, y, z))
    ensures x < 0x10 && Encode(Three(x, y, z)) == [0xE0 + x, 0x80 + y, 0x80 + z]
  {
    var c := Three(x, y, z);
    assert c / 64 == Two(x, y) && c / 4096 == x;
  }

  lemma LowDigit(c: nat, high: nat, low: nat)
    requires low < 64 && c == high * 64 + low
    ensures c / 64 == high && c % 64 == low
  {
  }

  lemma Quotients(c: nat)
    ensures c / 4096 == c / 64 / 64 && c / 262144 == c / 64 / 64 / 64
  {
  }

  lemma {:induction false} EncodeFour(x: nat, y: nat, z: nat, w: nat)
    requires y < 64 && z < 64 && w < 64 && 0x10000 <= Four(x, y, z, w) && Scalar(Four(x, y, z, w))
    ensures x < 0x08 && Encode(Four(x, y, z, w)) == [0xF0 + x, 0x80 + y, 0x80 + z, 0x80 + w]
  {
    var c := Four(x, y, z, w);
    LowDigit(c, Three(x, y, z), w);
    LowDigit(Three(x, y, z), Two(x, y), z);
    LowDigit(Two(x, y), x, y);
    Quotients(c);
  }

  lemma {:induction false} ContinueTwo(buf: seq<Byte>, at: nat, x: nat)
    requires at < |buf|
    ensures Continue(buf, at, 1, x) == if Tail(buf[at]) then Some(Two(x, buf[at] - 0x80)) else None
  {
  }

  lemma {:induction false} ContinueThree(buf: seq<Byte>, at: nat, x: nat)
    requires at + 1 < |buf|
    ensures Continue(buf, at, 2, x) ==
            if Tail(buf[at]) && Tail(buf[at + 1])
            then Some(Three(x, buf[at] - 0x80, buf[at + 1] - 0x80)) else None
  {
  }

  lemma {:induction false} ContinueFour(buf: seq<Byte>, at: nat, x: nat)
    requires at + 2 < |buf|
    ensures Continue(buf, at, 3, x) ==
            if Tail(buf[at]) && Tail(buf[at + 1]) && Tail(buf[at + 2])
            then Some(Four(x, buf[at] - 0x80, buf[at + 1] - 0x80, buf[at + 2] - 0x80)) else None
  {
  }

  lemma {:induction false} Ranges(x: nat, y: nat, z: nat)
    requires y < 64 && z < 64
    ensures x < 0x20 ==> Two(x, y) < 0x800
    ensures x < 0x10 ==> Three(x, y, z) < 0x10000
  {
  }

  lemma {:induction false} SoundTwo(buf: seq<Byte>, i: nat, x: nat)
    requires i + 1 < |buf| && buf[i] == 0xC0 + x && x < 0x20 && Continue(buf, i + 1, 1, x).Some?
    requires var c := Continue(buf, i + 1, 1, x).value; 0x80 <= c && Scalar(c)
    ensures buf[i..i + 2] == Encode(Continue(buf, i + 1, 1, x).value)
  {
    hide Continue, Encode, Two;
    ContinueTwo(buf, i + 1, x);
    var y := buf[i + 1] - 0x80;
    Ranges(x, y, 0);
    EncodeTwo(x, y);
  }

  lemma {:induction false} SoundThree(buf: seq<Byte>, i: nat, x: nat)
    requires i + 2 < |buf| && buf[i] == 0xE0 + x && x < 0x10 && Continue(buf, i + 1, 2, x).Some?
    requires var c := Continue(buf, i + 1, 2, x).value; 0x800 <= c && Scalar(c)
    ensures buf[i..i + 3] == Encode(Continue(buf, i + 1, 2, x).value)
  {
    hide Continue, Encode, Three;
    ContinueThree(buf, i + 1, x);
    var y, z := buf[i + 1] - 0x80, buf[i + 2] - 0x80;
    Ranges(x, y, z);
    EncodeThree(x, y, z);
  }

  lemma {:induction false} SoundFour(buf: seq<Byte>, i: nat, x: nat)
    requires i + 3 < |buf| && buf[i] == 0xF0 + x && Continue(buf, i + 1, 3, x).Some?
    requires var c := Continue(buf, i + 1, 3, x).value; 0x10000 <= c && Scalar(c)
    ensures buf[i..i + 4] == Encode(Continue(buf, i + 1, 3, x).value)
  {
    hide Continue, Encode, Four;
    ContinueFour(buf, i + 1, x);
    EncodeFour(x, buf[i + 1] - 0x80, buf[i + 2] - 0x80, buf[i + 3] - 0x80);
  }

  /** What is accepted at a place is the encoding of the scalar value it gives. */
  lemma {:induction false} CharSound(buf: seq<Byte>, i: nat)
    requires i < |buf| && Char(buf, i).Some?
    ensures var (c, n) := Char(buf, i).value;
            Scalar(c) && |Encode(c)| == n && i + n <= |buf| && buf[i..i + n] == Encode(c)
  {
    if buf[i] >= 0x80 {
      hide Continue, Encode;
      var (x, extra) := Lead(buf[i]).value;
      if extra == 1 {
        SoundTwo(buf, i, x);
      } else if extra == 2 {
        SoundThree(buf, i, x);
      } else {
        SoundFour(buf, i, x);
      }
    }
  }

  /** A scalar value that takes several bytes, by its digits. */
  lemma {:induction false} Digits(c: nat)
    requires Scalar(c) && c >= 0x80
    ensures c < 0x800 ==> c == Two(c / 64, c % 64)
    ensures 0x800 <= c < 0x10000 ==> c == Three(c / 4096, c / 64 % 64, c % 64)
    ensures 0x10000 <= c ==> c == Four(c / 262144, c / 4096 % 64, c / 64 % 64, c % 64)
  {
    assert c / 4096 == c / 64 / 64 && c / 262144 == c / 4096 / 64;
  }

  /** Every encoding of a scalar value is accepted, whatever follows it. */
  lemma {:induction false} CharComplete(buf: seq<Byte>, i: nat, c: nat)
    requires Scalar(c) && i + |Encode(c)| <= |buf| && buf[i..i + |Encode(c)|] == Encode(c)
    ensures Char(buf, i) == Some((c, |Encode(c)|))
  {
    hide Continue, Two, Three, Four;
    var e := buf[i..i + |Encode(c)|];
    assert buf[i] == e[0];
    if c >= 0x80 {
      Digits(c);
      assert buf[i + 1] == e[1];
      if c < 0x800 {
        ContinueTwo(buf, i + 1, c / 64);
      } else {
        assert buf[i + 2] == e[2];
        if c < 0x10000 {
          ContinueThree(buf, i + 1, c / 4096);
        } else {
          assert buf[i + 3] == e[3];
          ContinueFour(buf, i + 1, c / 262144);
        }
      }
    }
  }

  // ----- The whole buffer -----

  predicate Accepts(buf: seq<Byte>, i: nat)
    requires i <= |buf|
    decreases |buf| - i
  {
    i == |buf| || (Char(buf, i).Some? && i + Char(buf, i).value.1 <= |buf| && Accepts(buf, i + Char(buf, i).value.1))
  }

  lemma {:induction false} AcceptedIsEncoded(buf: seq<Byte>, i: nat) returns (text: seq<nat>)
    requires i <= |buf| && Accepts(buf, i)
    ensures (forall k :: 0 <= k < |text| ==> Scalar(text[k])) && EncodeAll(text) == buf[i..]
    decreases |buf| - i
  {
    hide Char, Encode;
    if i == |buf| {
      text := [];
    } else {
      CharSound(buf, i);
      var (c, n) := Char(buf, i).value;
      var rest := AcceptedIsEncoded(buf, i + n);
      text := [c] + rest;
      assert text[1..] == rest;
      assert buf[i..] == buf[i..i + n] + buf[i + n..];
    }
  }

  lemma {:induction false} EncodedIsAccepted(buf: seq<Byte>, i: nat, text: seq<nat>)
    requires i <= |buf| && (forall k :: 0 <= k < |text| ==> Scalar(text[k])) && EncodeAll(text) == buf[i..]
    ensures Accepts(buf, i)
    decreases |text|
  {
    hide Char, Encode;
    if text == [] {
    } else {
      var e := Encode(text[0]);
      var tail := buf[i..];
      assert tail[..|e|] == e && tail[|e|..] == EncodeAll(text[1..]);
      assert buf[i..i + |e|] == tail[..|e|] && buf[i + |e|..] == tail[|e|..];
      CharComplete(buf, i, text[0]);
      EncodedIsAccepted(buf, i + |e|, text[1..]);
    }
  }

  /** The recogniser accepts exactly the encodings of sequences of scalar values. */
  lemma {:induction false} AcceptsExactlyWellFormed(buf: seq<Byte>)
    ensures Accepts(buf, 0) <==> WellFormed(buf)
  {
    hide Accepts, EncodeAll;
    assert buf[0..] == buf;
    if Accepts(buf, 0) {
      var text := AcceptedIsEncoded(buf, 0);
      assert WellFormed(buf);
    }
    if WellFormed(buf) {
      var text: seq<nat> :| (forall i :: 0 <= i < |text| ==> Scalar(text[i])) && EncodeAll(text) == buf;
      EncodedIsAccepted(buf, 0, text);
    }
  }

  // ----- The loops -----

  /** Reads one character; the inner loop appends the continuation bytes. */
  method ReadChar(buf: seq<Byte>, i: nat) returns (r: Option<(nat, nat)>)
    requires i < |buf|
    ensures r == Char(buf, i)
  {
    var b0 := buf[i];
    if b0 < 0x80 {
      return Some((b0, 1));
    }
    var l := Lead(b0);
    if l.None? {
      return None;
    }
    var cp: nat, extra: nat := l.value.0, l.value.1;
    if i + extra >= |buf| {
      return None;
    }
    hide Lead;
    var k := 1;
    while k <= extra
      invariant 1 <= k <= extra + 1
      invariant Continue(buf, i + k, extra + 1 - k, cp) == Continue(buf, i + 1, extra, l.value.0)
    {
      var bk := buf[i + k];
      if !(0x80 <= bk < 0xC0) {
        return None;
      }
      cp := cp * 64 + (bk - 0x80);
      k := k + 1;
    }
    if cp < Least(extra) || !Scalar(cp) {
      return None;
    }
    return Some((cp, 1 + extra));
  }

  method IsValidUtf8(buf: seq<Byte>) returns (ok: bool)
    ensures ok <==> WellFormed(buf)
  {
    hide Char, WellFormed, Encode, Scalar;
    AcceptsExactlyWellFormed(buf);
    var i := 0;
    while i < |buf|
      invariant i <= |buf| && (Accepts(buf, i) <==> Accepts(buf, 0))
    {
      var r := ReadChar(buf, i);
      if r.None? {
        return false;
      }
      CharSound(buf, i);
      i := i + r.value.1;
    }
    return true;
  }
}
