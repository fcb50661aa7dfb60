/** Variable-length integers: seven bits a byte, low bits first, the top bit set on all bytes but the last. */
module Varint {
  import opened Common
  import opened Files

  const MAX_LEN: nat := 10

  function Encode(v: nat): (r: seq<Byte>)
    ensures |r| > 0
  {
    if v < 128 then [v] else [v % 128 + 128] + Encode(v / 128)
  }

  function Weight(i: nat): (w: nat)
    ensures w > 0
  {
    if i == 0 then 1 else 128 * Weight(i - 1)
  }

  /** A payload shifted left by seven bits `i` times in a 64-bit word. */
  function Shift(x: nat, i: nat): nat {
    if i == 0 then x else (128 * Shift(x, i - 1)) % U64_LIMIT
  }

  lemma ShiftOnce(y: nat)
    ensures (128 * (y % U64_LIMIT)) % U64_LIMIT == (128 * y) % U64_LIMIT
  {
    var q := y / U64_LIMIT;
    assert 128 * y == 128 * (y % U64_LIMIT) + 128 * q * U64_LIMIT;
  }

  lemma {:induction false} ShiftIsScaling(x: nat, i: nat)
    requires x < 128
    ensures Shift(x, i) == (x * Weight(i)) % U64_LIMIT
  {
    if i == 0 {
    } else {
      ShiftIsScaling(x, i - 1);
      ShiftOnce(x * Weight(i - 1));
      assert x * Weight(i) == 128 * (x * Weight(i - 1));
    }
  }

  /**
    The decoder's loop from its `i`-th byte on, for a varint that starts at `at`. The shifted payload
    is truncated to 64 bits; the bits it joins are all below it, so or-ing it in is adding it.
   */
  function DecodeFrom(bytes: seq<Byte>, at: nat, i: nat, result: nat): (r: Option<(nat, nat)>)
    ensures r.Some? ==> i < r.value.1 && at + r.value.1 <= |bytes|
    decreases |bytes| - at - i
  {
    if at + i >= |bytes| || i >= MAX_LEN then None
    else
      var r := result + Shift(bytes[at + i] % 128, i);
      if bytes[at + i] < 128 then Some((r, i + 1))
      else if 7 * (i + 1) > 63 then None
      else DecodeFrom(bytes, at, i + 1, r)
  }

  /** The value and the number of bytes it takes, if there is a varint at this place. */
  function Decode(bytes: seq<Byte>, at: nat): (r: Option<(nat, nat)>)
    ensures r.Some? ==> 0 < r.value.1 && at + r.value.1 <= |bytes|
  {
    DecodeFrom(bytes, at, 0, 0)
  }

  lemma TopWeights()
    ensures Weight(9) == 0x8000_0000_0000_0000 && Weight(10) > U64_LIMIT
  {
    assert Weight(2) == 0x4000 && Weight(4) == 0x1000_0000;
    assert Weight(6) == 0x400_0000_0000 && Weight(8) == 0x100_0000_0000_0000;
  }

  lemma {:induction false} WeightGrows(i: nat, j: nat)
    requires i <= j
    ensures Weight(i) <= Weight(j)
  {
    if i >= j {
    } else {
      WeightGrows(i, j - 1);
    }
  }

  lemma Distribute(hi: nat, lo: nat, w: nat)
    ensures (128 * hi + lo) * w == lo * w + hi * (128 * w)
  {
  }

  lemma AtLeastOne(hi: nat, u: nat)
    ensures hi >= 1 ==> hi * u >= u
  {
  }

  /** What one byte contributes and what is left for the rest, at weight `w`. */
  lemma SplitValue(v: nat, w: nat)
    requires v * w < U64_LIMIT
    ensures ((v % 128) * w) % U64_LIMIT == (v % 128) * w
    ensures (v % 128) * w + (v / 128) * (128 * w) == v * w
    ensures v >= 128 ==> 128 * w < U64_LIMIT
  {
    var lo, hi, u := v % 128, v / 128, 128 * w;
    Distribute(hi, lo, w);
    AtLeastOne(hi, u);
    var a, b := lo * w, hi * u;
    assert a + b == v * w;
  }

  /** The same for the `i`-th byte of an encoding. */
  lemma {:induction false} SplitAt(v: nat, i: nat)
    requires i < MAX_LEN && v * Weight(i) < U64_LIMIT
    ensures Shift(v % 128, i) + (v / 128) * Weight(i + 1) == v * Weight(i)
    ensures v < 128 ==> Shift(v, i) == v * Weight(i)
    ensures v >= 128 ==> i < 9
  {
    SplitValue(v, Weight(i));
    ShiftIsScaling(v % 128, i);
    if v >= 128 {
      TopWeights();
    }
  }

  /** The encoding of a value lies at this place. */
  predicate Holds(bytes: seq<Byte>, k: nat, v: nat)
    decreases v
  {
    && k < |bytes|
    && if v < 128 then bytes[k] == v else bytes[k] == v % 128 + 128 && Holds(bytes, k + 1, v / 128)
  }

  lemma {:induction false} EncodedHolds(bytes: seq<Byte>, k: nat, v: nat)
    requires BytesAt(bytes, k, Encode(v))
    ensures Holds(bytes, k, v)
    decreases v
  {
    if v < 128 {
    } else {
      EncodedHolds(bytes, k + 1, v / 128);
    }
  }

  lemma TopBitOff(low: nat)
    requires low < 128
    ensures (low + 128) % 128 == low
  {
  }

  /** One byte with the top bit set is taken and decoding goes on. */
  lemma DecodeMore(bytes: seq<Byte>, at: nat, i: nat, acc: nat, v: nat)
    requires i < 9 && v >= 128 && Holds(bytes, at + i, v)
    ensures DecodeFrom(bytes, at, i, acc) == DecodeFrom(bytes, at, i + 1, acc + Shift(v % 128, i))
  {
    hide Shift;
    var low := v % 128;
    assert bytes[at + i] == low + 128;
    TopBitOff(low);
  }

  /** Decoding picks up the rest of an encoded value wherever it starts, and whatever follows it. */
  lemma {:induction false} DecodeEncoded(bytes: seq<Byte>, at: nat, i: nat, acc: nat, v: nat, total: nat)
    requires i < MAX_LEN && Holds(bytes, at + i, v) && v * Weight(i) < U64_LIMIT && total == acc + v * Weight(i)
    ensures DecodeFrom(bytes, at, i, acc) == Some((total, i + |Encode(v)|))
    ensures i + |Encode(v)| <= MAX_LEN
    decreases v
  {
    SplitAt(v, i);
    if v < 128 {
    } else {
      DecodeMore(bytes, at, i, acc, v);
      DecodeEncoded(bytes, at, i + 1, acc + Shift(v % 128, i), v / 128, total);
    }
  }

  /** Decoding looks only at the bytes it takes. */
  lemma {:induction false} DecodeAgrees(a: seq<Byte>, b: seq<Byte>, at: nat, i: nat, acc: nat)
    requires DecodeFrom(a, at, i, acc).Some? && at + DecodeFrom(a, at, i, acc).value.1 <= |b|
    requires forall k :: at + i <= k < at + DecodeFrom(a, at, i, acc).value.1 ==> a[k] == b[k]
    ensures DecodeFrom(b, at, i, acc) == DecodeFrom(a, at, i, acc) && DecodeFrom(a, at, i, acc).value.1 <= MAX_LEN
    decreases |a| - at - i
  {
    hide Shift;
    assert a[at + i] == b[at + i];
    if a[at + i] < 128 {
    } else {
      DecodeAgrees(a, b, at, i + 1, acc + Shift(a[at + i] % 128, i));
    }
  }

  /** Every 64-bit value is read back from wherever it was written, and takes at most ten bytes. */
  lemma {:induction false} RoundTrip(v: nat, bytes: seq<Byte>, at: nat)
    requires v < U64_LIMIT && BytesAt(bytes, at, Encode(v))
    ensures Decode(bytes, at) == Some((v, |Encode(v)|)) && |Encode(v)| <= MAX_LEN
  {
    EncodedHolds(bytes, at, v);
    DecodeEncoded(bytes, at, 0, 0, v, v);
  }

  lemma {:induction false} EncodedSize(v: nat)
    requires v < U64_LIMIT
    ensures |Encode(v)| <= MAX_LEN
  {
    Appended([], Encode(v));
    assert [] + Encode(v) == Encode(v);
    RoundTrip(v, Encode(v), 0);
  }

  /** `n` bytes hold only values below 128^n. */
  lemma {:induction false} EncodedBelow(v: nat)
    ensures v < Weight(|Encode(v)|)
    decreases v
  {
    if v < 128 {
    } else {
      EncodedBelow(v / 128);
    }
  }

  /** A value from 2^63 on needs ten bytes. */
  lemma {:induction false} EncodedSpan(v: nat)
    requires v >= 0x8000_0000_0000_0000
    ensures |Encode(v)| >= 10
  {
    EncodedBelow(v);
    TopWeights();
    if |Encode(v)| <= 9 {
      WeightGrows(|Encode(v)|, 9);
    }
  }

  /** Of the tenth byte only the lowest bit survives the 64-bit shift. */
  lemma TopByte(x: nat)
    ensures (x * Weight(9)) % U64_LIMIT == (x % 2) * Weight(9)
  {
    TopWeights();
    var w := 0x8000_0000_0000_0000;
    assert x * w == (x / 2) * U64_LIMIT + (x % 2) * w by {
      assert x == 2 * (x / 2) + x % 2;
    }
  }

  lemma SmallProduct(x: nat, w: nat)
    requires x < 128 && 128 * w < U64_LIMIT
    ensures x * w <= 127 * w && (x * w) % U64_LIMIT == x * w
  {
    assert (127 - x) * w >= 0;
  }

  /** A decoded value fits in 64 bits, whatever the bytes. */
  lemma {:induction false} DecodedFits(bytes: seq<Byte>, at: nat, i: nat, acc: nat)
    requires i <= MAX_LEN && acc < Weight(i) && acc < U64_LIMIT
    ensures var r := DecodeFrom(bytes, at, i, acc); r.Some? ==> r.value.0 < U64_LIMIT && i < r.value.1 <= MAX_LEN
    decreases |bytes| - at - i
  {
    if at + i >= |bytes| || i == MAX_LEN {
    } else {
      var x := bytes[at + i] % 128;
      ShiftIsScaling(x, i);
      TopWeights();
      if i == 9 {
        TopByte(x);
      } else {
        WeightGrows(i + 1, 9);
        SmallProduct(x, Weight(i));
        DecodedFits(bytes, at, i + 1, acc + x * Weight(i));
      }
    }
  }

  method SizeU64(v: nat) returns (n: nat)
    ensures n == |Encode(v)|
  {
    n := 1;
    var rest := v;
    while rest >= 128
      invariant n + |Encode(rest)| == 1 + |Encode(v)|
    {
      rest := rest / 128;
      n := n + 1;
    }
  }

  /** Writes the encoding at `off` and nothing else, or reports that `cap` bytes are too few. */
  method EncodeU64(v: nat, out: array<Byte>, off: nat, cap: nat) returns (n: int)
    requires off + cap <= out.Length
    modifies out
    ensures n == if |Encode(v)| <= cap then |Encode(v)| else -1
    ensures n >= 0 ==> out[off..off + n] == Encode(v)
    ensures forall k :: 0 <= k < out.Length && !(off <= k < off + cap) ==> out[k] == old(out[k])
    ensures n >= 0 ==> forall k :: off + n <= k < out.Length ==> out[k] == old(out[k])
  {
    n := 0;
    var rest := v;
    while rest >= 128
      invariant 0 <= n <= cap && n + |Encode(rest)| == |Encode(v)| && Encode(v)[n..] == Encode(rest)
      invariant forall k :: 0 <= k < n ==> out[off + k] == Encode(v)[k]
      invariant forall k :: 0 <= k < out.Length && !(off <= k < off + n) ==> out[k] == old(out[k])
    {
      if n >= cap {
        return -1;
      }
      assert Encode(v)[n] == Encode(rest)[0] && Encode(v)[n + 1..] == Encode(rest)[1..];
      out[off + n] := rest % 128 + 128;
      n := n + 1;
      rest := rest / 128;
    }
    if n >= cap {
      return -1;
    }
    assert Encode(v)[n] == Encode(rest)[0];
    out[off + n] := rest;
    n := n + 1;
  }

  /** Adds the encoding of a machine word to what a buffer already holds, given room for the longest one. */
  method AppendU64(v: nat, out: array<Byte>, off: nat) returns (end: nat)
    requires v < U64_LIMIT && off + MAX_LEN <= out.Length
    modifies out
    ensures end == off + |Encode(v)| <= off + MAX_LEN
    ensures out[..end] == old(out[..off]) + Encode(v)
  {
    hide Encode;
    EncodedSize(v);
    ghost var before := out[..off];
    var n := EncodeU64(v, out, off, out.Length - off);
    end := off + n;
    assert out[..off] == before;
    assert out[..end] == out[..off] + out[off..end];
  }

  method DecodeU64(bytes: seq<Byte>, at: nat) returns (r: Option<(nat, nat)>)
    ensures r == Decode(bytes, at)
  {
    var result: nat, weight: nat := 0, 1;
    var i := 0;
    while at + i < |bytes| && i < MAX_LEN
      invariant 0 <= i <= MAX_LEN && weight == Weight(i)
      invariant DecodeFrom(bytes, at, i, result) == Decode(bytes, at)
    {
      var b := bytes[at + i];
      ShiftIsScaling(b % 128, i);
      result := result + ((b % 128) * weight) % U64_LIMIT;
      if b < 128 {
        return Some((result, i + 1));
      }
      if 7 * (i + 1) > 63 {
        return None;
      }
      weight := 128 * weight;
      i := i + 1;
    }
    return None;
  }
}
