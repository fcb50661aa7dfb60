/**
  64-bit words as their bits, least significant first, with the shift and or operators the source
  applies to them, and bitmaps made of such words.
 */
module Words {

  type Word = w: seq<bool> | |w| == 64 witness seq(64, _ => false)

  function Zero(): Word {
    seq(64, _ => false)
  }

  predicate Bit(w: Word, j: nat)
    requires j < 64
  {
    w[j]
  }

  function ShiftLeft(w: Word, s: nat): Word
    requires s < 64
  {
    seq(64, j requires 0 <= j < 64 => j >= s && w[j - s])
  }

  function ShiftRight(w: Word, s: nat): Word
    requires s < 64
  {
    seq(64, j requires 0 <= j < 64 => j + s < 64 && w[j + s])
  }

  function Or(v: Word, w: Word): Word {
    seq(64, j requires 0 <= j < 64 => v[j] || w[j])
  }

  /** `1 << k` */
  function OneBit(k: nat): Word
    requires k < 64
  {
    seq(64, j => j == k)
  }

  /** Bit `d` of a bitmap whose word 0 holds the lowest positions. */
  predicate BitAt(words: seq<Word>, d: nat)
    requires d < 64 * |words|
  {
    Bit(words[d / 64], d % 64)
  }

  /** `after` is `before` with every bit moved up by `shift` places. */
  ghost predicate MovedUp(before: seq<Word>, after: seq<Word>, shift: nat) {
    && |after| == |before|
    && (forall d: nat :: d < 64 * |after| && d < shift ==> !BitAt(after, d))
    && forall d: nat, e: nat :: d < 64 * |after| && d == e + shift ==> (BitAt(after, d) <==> BitAt(before, e))
  }

  /** `after` is `before` with bit `k` set. */
  ghost predicate OneMore(before: seq<Word>, after: seq<Word>, k: nat) {
    && |after| == |before|
    && forall d: nat :: d < 64 * |before| ==> (BitAt(after, d) <==> d == k || BitAt(before, d))
  }

  lemma Position(i: nat, j: nat)
    requires j < 64
    ensures (64 * i + j) / 64 == i && (64 * i + j) % 64 == j
  {
  }

  /** A word shifted up, with the top bits of the word below moved in. */
  function Funnel(hi: Word, lo: Word, s: nat): Word
    requires 0 < s < 64
  {
    Or(ShiftLeft(hi, s), ShiftRight(lo, 64 - s))
  }

  predicate IsFunnel(w: Word, hi: Word, lo: Word, s: nat) {
    && 0 < s < 64
    && (forall j :: s <= j < 64 ==> (Bit(w, j) <==> Bit(hi, j - s)))
    && (forall j :: 0 <= j < s ==> (Bit(w, j) <==> Bit(lo, 64 + j - s)))
  }

  lemma FunnelBits(hi: Word, lo: Word, s: nat)
    requires 0 < s < 64
    ensures IsFunnel(Funnel(hi, lo, s), hi, lo, s)
  {
  }

  /** Where a bit of either word ends up in the funnel. */
  lemma FunnelUp(w: Word, hi: Word, lo: Word, s: nat, j: nat)
    requires IsFunnel(w, hi, lo, s) && j < 64
    ensures j + s < 64 ==> (Bit(w, j + s) <==> Bit(hi, j))
    ensures j + s >= 64 ==> (Bit(w, j + s - 64) <==> Bit(lo, j))
  {
  }

  lemma AtPosition(words: seq<Word>, i: nat, j: nat)
    requires i < |words| && j < 64
    ensures BitAt(words, 64 * i + j) <==> Bit(words[i], j)
  {
    Position(i, j);
  }

  function WordOrZero(words: seq<Word>, i: int): Word {
    if 0 <= i < |words| then words[i] else Zero()
  }

  /** Moving every word up by `n` places moves every bit up by `64 * n`. */
  lemma WordsMoveUp(before: seq<Word>, after: seq<Word>, n: nat)
    requires |after| == |before|
    requires forall i :: 0 <= i < |after| ==> after[i] == WordOrZero(before, i - n)
    ensures MovedUp(before, after, 64 * n)
  {
    forall d: nat, e: nat | d < 64 * |after| && d == e + 64 * n
      ensures BitAt(after, d) <==> BitAt(before, e)
    {
      Position(e / 64 + n, e % 64);
    }
  }

  ghost predicate Funnelled(before: seq<Word>, after: seq<Word>, s: nat) {
    && |after| == |before|
    && forall i {:trigger after[i]} :: 0 <= i < |after| ==> IsFunnel(after[i], before[i], WordOrZero(before, i - 1), s)
  }

  lemma FunnelledBit(before: seq<Word>, after: seq<Word>, s: nat, i: nat, j: nat)
    requires Funnelled(before, after, s) && j < 64 && 64 * i + j + s < 64 * |after|
    ensures BitAt(after, 64 * i + j + s) <==> BitAt(before, 64 * i + j)
  {
    AtPosition(before, i, j);
    if j + s < 64 {
      FunnelUp(after[i], before[i], WordOrZero(before, i - 1), s, j);
      AtPosition(after, i, j + s);
    } else {
      FunnelUp(after[i + 1], before[i + 1], WordOrZero(before, i), s, j);
      AtPosition(after, i + 1, j + s - 64);
    }
  }

  /** Funnelling every word with the one below moves every bit up by `s`. */
  lemma BitsMoveUp(before: seq<Word>, after: seq<Word>, s: nat)
    requires 0 < s < 64 && Funnelled(before, after, s)
    ensures MovedUp(before, after, s)
  {
    forall d: nat | d < 64 * |after| && d < s
      ensures !BitAt(after, d)
    {
      assert IsFunnel(after[0], before[0], WordOrZero(before, -1), s);
      AtPosition(after, 0, d);
    }
    forall d: nat, e: nat | d < 64 * |after| && d == e + s
      ensures BitAt(after, d) <==> BitAt(before, e)
    {
      FunnelledBit(before, after, s, e / 64, e % 64);
    }
  }

  lemma NoMove(words: seq<Word>)
    ensures MovedUp(words, words, 0)
  {
  }

  /** Two shifts add up. */
  lemma MovesAddUp(a: seq<Word>, b: seq<Word>, c: seq<Word>, x: nat, y: nat)
    requires MovedUp(a, b, x) && MovedUp(b, c, y)
    ensures MovedUp(a, c, x + y)
  {
    forall d: nat | d < 64 * |c| && d < x + y
      ensures !BitAt(c, d)
    {
      if d >= y {
        assert BitAt(c, d) <==> BitAt(b, d - y);
      }
    }
    forall d: nat, e: nat | d < 64 * |c| && d == e + (x + y)
      ensures BitAt(c, d) <==> BitAt(a, e)
    {
      assert BitAt(c, d) <==> BitAt(b, e + x);
    }
  }

  lemma ZeroesMoveUp(before: seq<Word>, after: seq<Word>, shift: nat)
    requires |after| == |before| && 64 * |before| <= shift
    requires forall i :: 0 <= i < |after| ==> after[i] == Zero()
    ensures MovedUp(before, after, shift)
  {
  }
}
