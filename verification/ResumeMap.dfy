/** The chunk bitmap of a transfer: one bit a chunk, eight chunks a byte, lowest bit first. */
module ResumeMap {
  import opened Common

  // ----- Bits of a byte -----

  function BitOf(b: nat, k: nat): bool {
    if k == 0 then b % 2 == 1 else BitOf(b / 2, k - 1)
  }

  function WithBit(b: nat, k: nat): nat {
    if k == 0 then 2 * (b / 2) + 1 else b % 2 + 2 * WithBit(b / 2, k - 1)
  }

  function Pow2(k: nat): nat {
    if k == 0 then 1 else 2 * Pow2(k - 1)
  }

  /** A number from its lowest bit and the rest. */
  lemma Halves(low: nat, rest: nat)
    requires low < 2
    ensures (low + 2 * rest) / 2 == rest && (low + 2 * rest) % 2 == low
  {
  }

  lemma {:induction false} WithBitBelow(b: nat, k: nat, n: nat)
    requires b < Pow2(n) && k < n
    ensures WithBit(b, k) < Pow2(n)
  {
    Halves(b % 2, b / 2);
    if k == 0 {
    } else {
      WithBitBelow(b / 2, k - 1, n - 1);
    }
  }

  lemma {:induction false} BitOfWithBit(b: nat, k: nat, j: nat)
    ensures BitOf(WithBit(b, k), j) == (j == k || BitOf(b, j))
  {
    if k == 0 {
      Halves(1, b / 2);
    } else {
      Halves(b % 2, WithBit(b / 2, k - 1));
      if j > 0 {
        BitOfWithBit(b / 2, k - 1, j - 1);
      }
    }
  }

  function MarkedByte(b: Byte, k: nat): Byte
    requires k < 8
  {
    assert Pow2(4) == 16 && Pow2(8) == 256;
    WithBitBelow(b, k, 8);
    WithBit(b, k)
  }

  // ----- The whole map -----

  function Size(total: nat): nat {
    (total + 7) / 8
  }

  lemma InMap(i: nat, total: nat, size: nat)
    requires i < total && Size(total) <= size
    ensures i / 8 < size
  {
  }

  /** The bytes the program allocates: the rounding is done in 32 bits. */
  function Allocated(total: nat): nat {
    (total + 7) % U32_LIMIT / 8
  }

  /** They are enough for a 32-bit number of chunks exactly if it is at least eight short of 2^32. */
  lemma {:induction false} AllocationCoversIff(total: nat)
    requires total < U32_LIMIT
    ensures Allocated(total) == Size(total) <==> total + 7 < U32_LIMIT
    ensures total + 7 >= U32_LIMIT ==> Allocated(total) == 0 && Size(total) == 0x2000_0000
  {
    if total + 7 >= U32_LIMIT {
      assert (total + 7) % U32_LIMIT == total + 7 - U32_LIMIT;
    }
  }

  predicate Has(bits: seq<Byte>, i: nat) {
    i / 8 < |bits| && BitOf(bits[i / 8], i % 8)
  }

  function Marked(bits: seq<Byte>, i: nat): (r: seq<Byte>)
    requires i / 8 < |bits|
    ensures |r| == |bits|
  {
    bits[i / 8 := MarkedByte(bits[i / 8], i % 8)]
  }

  lemma {:induction false} HasMarked(bits: seq<Byte>, i: nat, j: nat)
    requires i / 8 < |bits| && j / 8 < |bits|
    ensures Has(Marked(bits, i), j) == (j == i || Has(bits, j))
  {
    BitOfWithBit(bits[i / 8], i % 8, j % 8);
  }

  /** How many of the first `n` chunks are marked. */
  function Count(bits: seq<Byte>, n: nat): (c: nat)
    requires Size(n) <= |bits|
    ensures c <= n
  {
    if n == 0 then 0 else Count(bits, n - 1) + if Has(bits, n - 1) then 1 else 0
  }

  lemma {:induction false} CountMarked(bits: seq<Byte>, i: nat, n: nat)
    requires Size(n) <= |bits| && i / 8 < |bits| && !Has(bits, i)
    ensures Count(Marked(bits, i), n) == Count(bits, n) + if i < n then 1 else 0
  {
    hide Has, Marked;
    if n == 0 {
    } else {
      CountMarked(bits, i, n - 1);
      HasMarked(bits, i, n - 1);
    }
  }

  /** The count is full exactly when every chunk is marked. */
  lemma {:induction false} CountFull(bits: seq<Byte>, n: nat)
    requires Size(n) <= |bits|
    ensures Count(bits, n) == n <==> forall i :: 0 <= i < n ==> Has(bits, i)
  {
    if n == 0 {
    } else {
      CountFull(bits, n - 1);
    }
  }

  lemma {:induction false} ZeroHasNone(k: nat)
    ensures !BitOf(0, k)
  {
    if k == 0 {
    } else {
      ZeroHasNone(k - 1);
    }
  }

  lemma {:induction false} CountZero(bits: seq<Byte>, n: nat)
    requires Size(n) <= |bits| && forall j :: 0 <= j < |bits| ==> bits[j] == 0
    ensures Count(bits, n) == 0 && forall i :: 0 <= i < n ==> !Has(bits, i)
  {
    forall i | 0 <= i < n
      ensures !Has(bits, i)
    {
      ZeroHasNone(i % 8);
    }
    if n == 0 {
    } else {
      CountZero(bits, n - 1);
    }
  }

  /** The unmarked chunks from `from` on, in order. */
  function Missing(bits: seq<Byte>, from: nat, total: nat): seq<nat>
    requires Size(total) <= |bits|
    decreases total - from
  {
    if from >= total then []
    else if Has(bits, from) then Missing(bits, from + 1, total)
    else [from] + Missing(bits, from + 1, total)
  }

  /** What was found and what is still to be found make up the whole list. */
  ghost predicate Listed(found: seq<nat>, bits: seq<Byte>, i: nat, total: nat, all: seq<nat>)
    requires Size(total) <= |bits|
  {
    found + Missing(bits, i, total) == all
  }

  lemma {:induction false} ListStarts(bits: seq<Byte>, total: nat)
    requires Size(total) <= |bits|
    ensures Listed([], bits, 0, total, Missing(bits, 0, total))
  {
  }

  lemma {:induction false} ListStep(found: seq<nat>, bits: seq<Byte>, i: nat, total: nat, all: seq<nat>)
    requires Size(total) <= |bits| && i < total && Listed(found, bits, i, total, all)
    ensures Has(bits, i) ==> Listed(found, bits, i + 1, total, all)
    ensures !Has(bits, i) ==> Listed(found + [i], bits, i + 1, total, all)
    ensures !Has(bits, i) ==> |all| > |found| && all[..|found|] == found
  {
    hide Has, Size;
  }

  lemma {:induction false} ListEnds(found: seq<nat>, bits: seq<Byte>, total: nat, all: seq<nat>)
    requires Size(total) <= |bits| && Listed(found, bits, total, total, all)
    ensures found == all
  {
  }

  /** It lists exactly the unmarked chunks, each once, in increasing order. */
  lemma {:induction false} MissingIsExact(bits: seq<Byte>, from: nat, total: nat)
    requires Size(total) <= |bits|
    ensures var m := Missing(bits, from, total);
            && (forall i :: i in m <==> from <= i < total && !Has(bits, i))
            && (forall a, b :: 0 <= a < b < |m| ==> m[a] < m[b])
    decreases total - from
  {
    hide Has, Size;
    if from >= total {
    } else {
      MissingIsExact(bits, from + 1, total);
      var rest := Missing(bits, from + 1, total);
      assert forall k :: 0 <= k < |rest| ==> rest[k] in rest;
    }
  }

  lemma {:induction false} MissingCount(bits: seq<Byte>, from: nat, total: nat)
    requires Size(total) <= |bits| && from <= total
    ensures |Missing(bits, from, total)| + Count(bits, total) == total - from + Count(bits, from)
    decreases total - from
  {
    hide Has, Size;
    if from >= total {
    } else {
      MissingCount(bits, from + 1, total);
    }
  }

  class Map {
    const bits: array<Byte>
    const total: nat
    var received: nat

    ghost predicate Valid()
      reads this, bits
    {
      Size(total) <= bits.Length && received == Count(bits[..], total)
    }

    constructor (total: nat)
      ensures Valid() && fresh(bits) && this.total == total && received == 0
      ensures forall i :: 0 <= i < total ==> !Has(bits[..], i)
      ensures forall j :: 0 <= j < bits.Length ==> bits[j] == 0
    {
      this.total := total;
      bits := new Byte[if Size(total) == 0 then 1 else Size(total)](_ => 0);
      received := 0;
      new;
      CountZero(bits[..], total);
    }

    /** Marks a chunk; marking one again changes nothing. */
    method Set(i: nat) returns (ok: bool)
      requires Valid()
      modifies bits, this`received
      ensures Valid() && (ok <==> i < total)
      ensures bits[..] == if ok && !Has(old(bits[..]), i) then Marked(old(bits[..]), i) else old(bits[..])
      ensures received == old(received) + if ok && !Has(old(bits[..]), i) then 1 else 0
    {
      if i >= total {
        return false;
      }
      hide Count;
      ghost var before := bits[..];
      if !BitOf(bits[i / 8], i % 8) {
        CountMarked(before, i, total);
        bits[i / 8] := MarkedByte(bits[i / 8], i % 8);
        received := received + 1;
        assert bits[..] == Marked(before, i);
      }
      return true;
    }

    predicate Test(i: nat)
      requires Size(total) <= bits.Length
      reads this, bits
    {
      i < total && Has(bits[..], i)
    }

    method Complete() returns (full: bool)
      requires Valid()
      ensures full <==> forall i :: 0 <= i < total ==> Has(bits[..], i)
    {
      CountFull(bits[..], total);
      return received == total;
    }

    /** The first unmarked chunks, as many as fit, and whether there are more. */
    method ListMissing(capacity: nat) returns (found: seq<nat>, more: bool)
      requires Valid()
      ensures var all := Missing(bits[..], 0, total);
              && |all| == total - received
              && (more <==> |all| > capacity)
              && found == if more then all[..capacity] else all
    {
      MissingCount(bits[..], 0, total);
      hide Has, Count, Missing, Size, Listed;
      found, more := [], false;
      var i: nat := 0;
      ghost var marks, all := bits[..], Missing(bits[..], 0, total);
      ListStarts(marks, total);
      while i < total
        invariant i <= total && |found| <= capacity && Listed(found, marks, i, total, all)
      {
        ListStep(found, marks, i, total, all);
        if !Test(i) {
          if |found| < capacity {
            found := found + [i];
          } else {
            return found, true;
          }
        }
        i := i + 1;
      }
      ListEnds(found, marks, total, all);
    }

    /** The bytes of the map, if they fit. */
    method Serialize(capacity: nat) returns (out: Option<seq<Byte>>)
      requires Valid()
      ensures out.Some? <==> Size(total) <= capacity
      ensures out.Some? ==> out.value == bits[..Size(total)]
    {
      if capacity < Size(total) {
        return None;
      }
      return Some(bits[..Size(total)]);
    }
  }

  lemma {:induction false} SamePrefix(a: seq<Byte>, b: seq<Byte>, n: nat)
    requires Size(n) <= |a| && Size(n) <= |b| && a[..Size(n)] == b[..Size(n)]
    ensures Count(a, n) == Count(b, n) && forall i :: 0 <= i < n ==> Has(a, i) == Has(b, i)
  {
    forall i | 0 <= i < n
      ensures Has(a, i) == Has(b, i)
    {
      assert a[i / 8] == a[..Size(n)][i / 8] && b[i / 8] == b[..Size(n)][i / 8];
    }
    if n == 0 {
    } else {
      assert a[..Size(n - 1)] == a[..Size(n)][..Size(n - 1)] && b[..Size(n - 1)] == b[..Size(n)][..Size(n - 1)];
      SamePrefix(a, b, n - 1);
    }
  }

  /** Rebuilds a map from its bytes and counts the marked chunks again; too few bytes are refused. */
  method Deserialize(input: seq<Byte>, total: nat) returns (m: Map?)
    ensures m == null <==> |input| < Size(total)
    ensures m != null ==> fresh(m) && fresh(m.bits) && m.Valid() && m.total == total
    ensures m != null ==> m.bits[..Size(total)] == input[..Size(total)]
    ensures m != null ==> m.received == Count(input, total) && forall i :: 0 <= i < total ==> m.Test(i) == Has(input, i)
  {
    if |input| < Size(total) {
      return null;
    }
    m := new Map(total);
    forall j | 0 <= j < Size(total) {
      m.bits[j] := input[j];
    }
    hide Has;
    ghost var whole := m.bits[..];
    assert whole[..Size(total)] == input[..Size(total)];
    SamePrefix(whole, input, total);
    m.received := 0;
    for i := 0 to total
      invariant m.bits[..] == whole && m.received == Count(whole, i)
    {
      if m.Test(i) {
        m.received := m.received + 1;
      }
    }
  }

  /** A map that is written out and read back has the same marks and the same count. */
  method RoundTrip(m: Map) returns (copy: Map)
    requires m.Valid()
    ensures copy.Valid() && copy.total == m.total && copy.received == m.received
    ensures forall i :: 0 <= i < m.total ==> copy.Test(i) == m.Test(i)
  {
    var out := m.Serialize(Size(m.total));
    var back := Deserialize(out.value, m.total);
    SamePrefix(out.value, m.bits[..], m.total);
    copy := back;
  }
}
