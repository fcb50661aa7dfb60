/**
  CRC-32C: the table-driven update against division one message bit at a time (section 12.1 of
  RFC 3720). Registers are written as their 32 bits, lowest first.
 */
module Crc {
  import opened Common

  type Register = c: seq<bool> | |c| == 32 witness Zeros(32)

  function Zeros(n: nat): (r: seq<bool>)
    ensures |r| == n
  {
    seq(n, _ => false)
  }

  /** The generator polynomial 0x1EDC6F41. */
  function Generator(): Register {
    [true, false, false, false, false, false, true, false,
     true, true, true, true, false, true, true, false,
     false, false, true, true, true, false, true, true,
     false, true, true, true, true, false, false, false]
  }

  /** The same with its bits reversed, 0x82F63B78. */
  function Poly(): Register {
    [false, false, false, true, true, true, true, false,
     true, true, false, true, true, true, false, false,
     false, true, true, false, true, true, true, true,
     false, true, false, false, false, false, false, true]
  }

  function Xor(a: Register, b: Register): (r: Register)
    ensures forall j :: 0 <= j < 32 ==> r[j] == (a[j] != b[j])
  {
    seq(32, j requires 0 <= j < 32 => a[j] != b[j])
  }

  function ShiftRight(a: Register, n: nat): (r: Register)
    ensures forall j :: 0 <= j < 32 ==> r[j] == (j + n < 32 && a[j + n])
  {
    seq(32, j requires 0 <= j < 32 => j + n < 32 && a[j + n])
  }

  function ShiftLeft(a: Register, n: nat): (r: Register)
    ensures forall j :: 0 <= j < 32 ==> r[j] == (j >= n && a[j - n])
  {
    seq(32, j requires 0 <= j < 32 => j >= n && a[j - n])
  }

  // ----- Numbers and their bits -----

  function BitsOf(n: nat, k: nat): (r: seq<bool>)
    ensures |r| == k
  {
    if k == 0 then [] else [n % 2 == 1] + BitsOf(n / 2, k - 1)
  }

  function ValueOf(bits: seq<bool>): nat {
    if bits == [] then 0 else (if bits[0] then 1 else 0) + 2 * ValueOf(bits[1..])
  }

  lemma {:induction false} BitsOfValue(bits: seq<bool>)
    ensures BitsOf(ValueOf(bits), |bits|) == bits
  {
    if bits == [] {
    } else {
      BitsOfValue(bits[1..]);
    }
  }

  function Pow2(k: nat): nat {
    if k == 0 then 1 else 2 * Pow2(k - 1)
  }

  lemma {:induction false} ValueBelow(bits: seq<bool>)
    ensures ValueOf(bits) < Pow2(|bits|)
  {
    if bits == [] {
    } else {
      ValueBelow(bits[1..]);
    }
  }

  /** Eight bits read as an octet. */
  function ByteOf(bits: seq<bool>): (b: Byte)
    requires |bits| == 8
  {
    ValueBelow(bits);
    assert Pow2(4) == 16;
    assert Pow2(8) == 256;
    ValueOf(bits)
  }

  /** A register holding some bits in its low positions. */
  function Pad(bits: seq<bool>): (r: Register)
    requires |bits| <= 32
    ensures forall j :: 0 <= j < 32 ==> r[j] == (j < |bits| && bits[j])
  {
    bits + Zeros(32 - |bits|)
  }

  // ----- Division, one message bit at a time -----

  /** Shift right, subtracting the polynomial if the bit that leaves differs from the message bit. */
  function FeedWith(poly: Register, c: Register, bit: bool): Register {
    if c[0] != bit then Xor(poly, ShiftRight(c, 1)) else ShiftRight(c, 1)
  }

  function Feed(c: Register, bit: bool): Register {
    FeedWith(Poly(), c, bit)
  }

  function FeedBits(c: Register, bits: seq<bool>): Register
    decreases |bits|
  {
    if bits == [] then c else FeedBits(Feed(c, bits[0]), bits[1..])
  }

  /** Division of a whole message. */
  function Divide(c: Register, data: seq<Byte>): Register
    decreases |data|
  {
    if data == [] then c else Divide(FeedBits(c, BitsOf(data[0], 8)), data[1..])
  }

  /** Dividing in pieces is dividing at once. */
  lemma {:induction false} DivideAppend(c: Register, a: seq<Byte>, b: seq<Byte>)
    ensures Divide(c, a + b) == Divide(Divide(c, a), b)
    decreases |a|
  {
    hide FeedBits, BitsOf;
    if a == [] {
      assert a + b == b;
    } else {
      DivideAppend(FeedBits(c, BitsOf(a[0], 8)), a[1..], b);
      assert (a + b)[1..] == a[1..] + b;
    }
  }

  // ----- The polynomial as the standard writes it -----

  /** Long division with the highest coefficient first. */
  function FeedHighFirst(generator: Register, c: Register, bit: bool): Register {
    if c[31] != bit then Xor(generator, ShiftLeft(c, 1)) else ShiftLeft(c, 1)
  }

  function Reverse(c: Register): (r: Register)
    ensures forall j :: 0 <= j < 32 ==> r[j] == c[31 - j]
  {
    seq(32, j requires 0 <= j < 32 => c[31 - j])
  }

  lemma PolyIsReversedGenerator()
    ensures Poly() == Reverse(Generator())
  {
    var g, p := Generator(), Poly();
    assert forall j :: 0 <= j < 32 ==> p[j] == g[31 - j];
  }

  lemma MirrorDivision(generator: Register, poly: Register, c: Register, bit: bool)
    requires poly == Reverse(generator)
    ensures Reverse(FeedWith(poly, c, bit)) == FeedHighFirst(generator, Reverse(c), bit)
  {
    var l, r := Reverse(FeedWith(poly, c, bit)), FeedHighFirst(generator, Reverse(c), bit);
    assert forall j :: 0 <= j < 32 ==> l[j] == r[j];
  }

  /** The reversed register performs the standard's division, step for step. */
  lemma FeedIsGeneratorDivision(c: Register, bit: bool)
    ensures Reverse(Feed(c, bit)) == FeedHighFirst(Generator(), Reverse(c), bit)
  {
    PolyIsReversedGenerator();
    MirrorDivision(Generator(), Poly(), c, bit);
  }

  // ----- The table form -----

  function Step(c: Register): Register {
    if c[0] then Xor(Poly(), ShiftRight(c, 1)) else ShiftRight(c, 1)
  }

  function Steps(c: Register, k: nat): Register
    decreases k
  {
    if k == 0 then c else Steps(Step(c), k - 1)
  }

  lemma StepBit(c: Register, j: nat)
    requires j < 32
    ensures Step(c)[j] == ((c[0] && Poly()[j]) != (j < 31 && c[j + 1]))
  {
  }

  lemma StepLinear(a: Register, b: Register)
    ensures Step(Xor(a, b)) == Xor(Step(a), Step(b))
  {
    var l, r := Step(Xor(a, b)), Xor(Step(a), Step(b));
    forall j | 0 <= j < 32
      ensures l[j] == r[j]
    {
      StepBit(Xor(a, b), j);
      StepBit(a, j);
      StepBit(b, j);
    }
  }

  lemma {:induction false} StepsLinear(a: Register, b: Register, k: nat)
    ensures Steps(Xor(a, b), k) == Xor(Steps(a, k), Steps(b, k))
    decreases k
  {
    if k == 0 {
    } else {
      StepLinear(a, b);
      StepsLinear(Step(a), Step(b), k - 1);
    }
  }

  /** As long as only zeros leave, stepping is shifting. */
  lemma {:induction false} StepsShift(c: Register, k: nat)
    requires k <= 32 && forall j :: 0 <= j < k ==> !c[j]
    ensures Steps(c, k) == ShiftRight(c, k)
    decreases k
  {
    if k == 0 {
      assert ShiftRight(c, 0) == c;
    } else {
      StepsShift(Step(c), k - 1);
      assert ShiftRight(ShiftRight(c, 1), k - 1) == ShiftRight(c, k);
    }
  }

  /** Feeding bits is adding them to the register and stepping over them. */
  lemma {:induction false} FeedBitsIsSteps(c: Register, bits: seq<bool>)
    requires |bits| <= 32
    ensures FeedBits(c, bits) == Steps(Xor(c, Pad(bits)), |bits|)
    decreases |bits|
  {
    hide Xor, Feed, Step;
    if bits == [] {
      XorZero(c, Pad(bits));
    } else {
      FeedBitsIsSteps(Feed(c, bits[0]), bits[1..]);
      FeedIsStep(c, bits);
    }
  }

  lemma FeedIsStep(c: Register, bits: seq<bool>)
    requires 0 < |bits| <= 32
    ensures Step(Xor(c, Pad(bits))) == Xor(Feed(c, bits[0]), Pad(bits[1..]))
  {
    var l, r := Step(Xor(c, Pad(bits))), Xor(Feed(c, bits[0]), Pad(bits[1..]));
    forall j | 0 <= j < 32
      ensures l[j] == r[j]
    {
      StepBit(Xor(c, Pad(bits)), j);
    }
  }

  lemma XorZero(c: Register, zero: Register)
    requires forall j :: 0 <= j < 32 ==> !zero[j]
    ensures Xor(c, zero) == c
  {
  }

  lemma LowAndHigh(c: Register)
    ensures var high := ShiftLeft(ShiftRight(c, 8), 8);
            && c == Xor(Pad(c[..8]), high) && ShiftRight(high, 8) == ShiftRight(c, 8)
            && forall j :: 0 <= j < 8 ==> !high[j]
  {
  }

  /** The low byte goes through the table; the rest only moves. */
  lemma {:induction false} TableStep(c: Register)
    ensures Steps(c, |c[..8]|) == Xor(StepsOver(c[..8]), ShiftRight(c, 8))
  {
    var high := ShiftLeft(ShiftRight(c, 8), 8);
    LowAndHigh(c);
    StepsLinear(Pad(c[..8]), high, |c[..8]|);
    StepsShift(high, |c[..8]|);
  }

  lemma HighUnchanged(c: Register, bits: seq<bool>)
    requires |bits| == 8
    ensures ShiftRight(Xor(c, Pad(bits)), 8) == ShiftRight(c, 8)
  {
  }

  /** One byte by table equals one byte by division. */
  lemma {:induction false} TableByte(c: Register, bits: seq<bool>)
    requires |bits| == 8
    ensures FeedBits(c, bits) == Xor(StepsOver(Xor(c, Pad(bits))[..8]), ShiftRight(c, 8))
  {
    FeedBitsIsSteps(c, bits);
    TableStep(Xor(c, Pad(bits)));
    HighUnchanged(c, bits);
  }

  /** The table entry for a byte: eight steps of the division. */
  function Entry(i: nat): Register {
    StepsOver(BitsOf(i, 8))
  }

  function StepsOver(bits: seq<bool>): Register
    requires |bits| <= 32
  {
    Steps(Pad(bits), |bits|)
  }

  lemma {:induction false} StepsOnce(c: Register, k: nat)
    requires k > 0
    ensures Steps(c, k) == Steps(Step(c), k - 1)
  {
  }

  method TableEntry(i: Byte) returns (c: Register)
    ensures c == Entry(i)
  {
    hide Steps, Poly, Xor, ShiftRight, Pad, BitsOf;
    c := Pad(BitsOf(i, 8));
    for j := 0 to 8
      invariant Steps(c, 8 - j) == Entry(i)
    {
      StepsOnce(c, 8 - j);
      c := if c[0] then Xor(Poly(), ShiftRight(c, 1)) else ShiftRight(c, 1);
    }
    AllSteps(c);
  }

  lemma {:induction false} AllSteps(c: Register)
    ensures Steps(c, 0) == c
  {
  }

  class Crc32c {
    var table: array<Register>
    var ready: bool

    ghost predicate Valid()
      reads this, table
    {
      table.Length == 256 && (ready ==> forall i :: 0 <= i < 256 ==> table[i] == Entry(i))
    }

    constructor ()
      ensures Valid() && fresh(table)
    {
      table := new Register[256](_ => Zeros(32));
      ready := false;
    }

    method BuildTable()
      requires Valid()
      modifies this`ready, table
      ensures Valid() && ready
    {
      hide Entry;
      ready := false;
      for i := 0 to 256
        invariant table.Length == 256 && !ready
        invariant forall k :: 0 <= k < i ==> table[k] == Entry(k)
      {
        var entry := TableEntry(i);
        table[i] := entry;
      }
      ready := true;
    }

    /** The table-driven update computes the bit-by-bit division, from any register state. */
    method Update(crc: Register, data: seq<Byte>) returns (r: Register)
      requires Valid()
      modifies this`ready, table
      ensures Valid() && r == Divide(crc, data)
    {
      if !ready {
        BuildTable();
      }
      r := crc;
      for i := 0 to |data|
        invariant Valid() && ready
        invariant Divide(r, data[i..]) == Divide(crc, data)
      {
        var x := Xor(r, Pad(BitsOf(data[i], 8)));
        TableByte(r, BitsOf(data[i], 8));
        BitsOfValue(x[..8]);
        assert data[i..][0] == data[i] && data[i..][1..] == data[i + 1..];
        var index := ByteOf(x[..8]);
        r := Xor(table[index], ShiftRight(r, 8));
      }
    }
  }

  // ----- Checksums -----

  function Ones(): Register {
    seq(32, _ => true)
  }

  /** The four checksum bytes of a final register state, highest first. */
  function Finish(state: Register): (r: seq<Byte>)
    ensures |r| == 4
  {
    var c := Xor(state, Ones());
    [ByteOf(c[24..32]), ByteOf(c[16..24]), ByteOf(c[8..16]), ByteOf(c[..8])]
  }

  function Checksum(data: seq<Byte>): (r: seq<Byte>)
    ensures |r| == 4
  {
    Finish(Divide(Ones(), data))
  }

  /** A message may be checksummed in pieces. */
  lemma {:induction false} ChecksumInParts(a: seq<Byte>, b: seq<Byte>, c: seq<Byte>)
    ensures Checksum(a + b + c) == Finish(Divide(Divide(Divide(Ones(), a), b), c))
  {
    DivideAppend(Ones(), a + b, c);
    DivideAppend(Ones(), a, b);
  }
}
