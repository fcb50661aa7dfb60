/** Files as byte sequences: bounded reads and facts about where bytes lie. */
module Files {
  import opened Common

  /** File positions are signed 64-bit numbers. */
  const LONG_LIMIT: nat := 0x8000_0000_0000_0000

  /** Copies bytes into a buffer and nowhere else. */
  method CopyInto(out: array<Byte>, at: nat, bytes: seq<Byte>)
    requires at + |bytes| <= out.Length
    modifies out
    ensures out[at..at + |bytes|] == bytes
    ensures forall k :: 0 <= k < out.Length && !(at <= k < at + |bytes|) ==> out[k] == old(out[k])
  {
    for i := 0 to |bytes|
      invariant forall k :: 0 <= k < i ==> out[at + k] == bytes[k]
      invariant forall k :: 0 <= k < out.Length && !(at <= k < at + i) ==> out[k] == old(out[k])
    {
      out[at + i] := bytes[i];
    }
  }

  /** What a read of `n` bytes at a position gives: fewer at the end of the file. */
  function Window(file: seq<Byte>, pos: nat, n: nat): (r: seq<Byte>)
    ensures |r| <= n
  {
    if pos >= |file| then [] else file[pos..Min(pos + n, |file|)]
  }

  /** A machine word taken as a signed offset. */
  function Signed(v: nat): int {
    if v < LONG_LIMIT then v else v - U64_LIMIT
  }

  /** The bytes lie in the file at this place. */
  ghost predicate BytesAt(file: seq<Byte>, at: nat, bytes: seq<Byte>)
    decreases |bytes|
  {
    if bytes == [] then at <= |file|
    else at < |file| && file[at] == bytes[0] && BytesAt(file, at + 1, bytes[1..])
  }

  lemma {:induction false} BytesAtSlice(file: seq<Byte>, at: nat, bytes: seq<Byte>)
    requires BytesAt(file, at, bytes)
    ensures at + |bytes| <= |file| && file[at..at + |bytes|] == bytes
    decreases |bytes|
  {
    if bytes == [] {
    } else {
      BytesAtSlice(file, at + 1, bytes[1..]);
      assert file[at..at + |bytes|] == [file[at]] + file[at + 1..at + |bytes|];
    }
  }

  lemma {:induction false} SliceBytesAt(file: seq<Byte>, at: nat, bytes: seq<Byte>)
    requires at + |bytes| <= |file| && file[at..at + |bytes|] == bytes
    ensures BytesAt(file, at, bytes)
    decreases |bytes|
  {
    if bytes == [] {
    } else {
      assert file[at] == file[at..at + |bytes|][0];
      assert file[at + 1..at + |bytes|] == file[at..at + |bytes|][1..];
      SliceBytesAt(file, at + 1, bytes[1..]);
    }
  }

  lemma {:induction false} BytesAtParts(file: seq<Byte>, at: nat, a: seq<Byte>, b: seq<Byte>)
    requires BytesAt(file, at, a + b)
    ensures BytesAt(file, at, a) && BytesAt(file, at + |a|, b)
  {
    BytesAtSlice(file, at, a + b);
    var whole := file[at..at + |a| + |b|];
    assert file[at..at + |a|] == whole[..|a|] == a;
    assert file[at + |a|..at + |a| + |b|] == whole[|a|..] == b;
    SliceBytesAt(file, at, a);
    SliceBytesAt(file, at + |a|, b);
  }

  lemma SplitTail(file: seq<Byte>, pos: nat, a: seq<Byte>, b: seq<Byte>)
    requires pos <= |file| && file[pos..] == a + b
    ensures BytesAt(file, pos, a) && pos + |a| <= |file| && file[pos + |a|..] == b
  {
    var tail := file[pos..];
    assert file[pos..pos + |a|] == tail[..|a|] == a;
    assert file[pos + |a|..] == tail[|a|..] == b;
    SliceBytesAt(file, pos, a);
  }

  lemma {:induction false} WindowShows(file: seq<Byte>, at: nat, bytes: seq<Byte>, n: nat)
    requires BytesAt(file, at, bytes) && 0 < |bytes| <= n
    ensures BytesAt(Window(file, at, n), 0, bytes)
  {
    BytesAtSlice(file, at, bytes);
    assert Window(file, at, n)[0..|bytes|] == file[at..at + |bytes|];
    SliceBytesAt(Window(file, at, n), 0, bytes);
  }

  lemma {:induction false} WindowIs(file: seq<Byte>, at: nat, bytes: seq<Byte>)
    requires BytesAt(file, at, bytes)
    ensures Window(file, at, |bytes|) == bytes && at + |bytes| <= |file|
  {
    BytesAtSlice(file, at, bytes);
  }

  lemma {:induction false} BytesStay(file: seq<Byte>, more: seq<Byte>, at: nat, bytes: seq<Byte>)
    requires BytesAt(file, at, bytes)
    ensures BytesAt(file + more, at, bytes)
  {
    BytesAtSlice(file, at, bytes);
    assert (file + more)[at..at + |bytes|] == file[at..at + |bytes|];
    SliceBytesAt(file + more, at, bytes);
  }

  lemma {:induction false} Appended(file: seq<Byte>, bytes: seq<Byte>)
    ensures BytesAt(file + bytes, |file|, bytes)
  {
    SliceBytesAt(file + bytes, |file|, bytes);
  }

  lemma Regroup<T>(a: seq<T>, b: seq<T>, c: seq<T>)
    ensures a + (b + c) == (a + b) + c
  {
  }
}

/** Logs of records: how they are laid out and how they are walked, for any encoding and any reader. */
module Logs {
  import opened Common
  import opened Files

  type Encoder<!E> = E -> seq<Byte>

  /** A reader gives the record at a place, if there is one, and where to go on, if anywhere. */
  type Reader<!E> = nat -> Option<(E, Option<nat>)>

  function Log<E>(encode: Encoder<E>, items: seq<E>): seq<Byte> {
    if items == [] then [] else encode(items[0]) + Log(encode, items[1..])
  }

  lemma {:induction false} LogAppend<E>(encode: Encoder<E>, a: seq<E>, b: seq<E>)
    ensures Log(encode, a + b) == Log(encode, a) + Log(encode, b)
  {
    if a == [] {
      assert a + b == b;
    } else {
      assert (a + b)[1..] == a[1..] + b;
      LogAppend(encode, a[1..], b);
      Regroup(encode(a[0]), Log(encode, a[1..]), Log(encode, b));
    }
  }

  // ----- Walking, and whether the walk ends -----

  /** The records read in a walk that ends within so many reads. */
  function WalkFor<E>(read: Reader<E>, pos: nat, turns: nat): Option<seq<E>>
    decreases turns
  {
    if turns == 0 then None
    else
      var r := read(pos);
      if r.None? then Some([])
      else if r.value.1.None? then Some([r.value.0])
      else
        var rest := WalkFor(read, r.value.1.value, turns - 1);
        if rest.None? then None else Some([r.value.0] + rest.value)
  }

  /** The walk from a place comes to an end. */
  ghost predicate Ends<E>(read: Reader<E>, pos: nat) {
    exists turns :: WalkFor(read, pos, turns).Some?
  }

  /** Nothing is read from the limit on. */
  ghost predicate Within<E>(read: Reader<E>, limit: nat) {
    forall pos: nat :: read(pos).Some? ==> pos < limit
  }

  /** The places a walk reads records at, when it takes this many reads. */
  function Places<E>(read: Reader<E>, pos: nat, turns: nat): seq<nat>
    decreases turns
  {
    if turns == 0 || read(pos).None? then []
    else if read(pos).value.1.None? then [pos]
    else [pos] + Places(read, read(pos).value.1.value, turns - 1)
  }

  lemma {:induction false} WalkMonotone<E>(read: Reader<E>, pos: nat, turns: nat, more: nat)
    requires turns <= more && WalkFor(read, pos, turns).Some?
    ensures WalkFor(read, pos, more) == WalkFor(read, pos, turns)
    decreases turns
  {
    var r := read(pos);
    if r.None? || r.value.1.None? {
    } else {
      WalkMonotone(read, r.value.1.value, turns - 1, more - 1);
    }
  }

  /** The fewest reads after which the walk has ended. */
  ghost function Fewest<E>(read: Reader<E>, pos: nat, turns: nat): (n: nat)
    requires WalkFor(read, pos, turns).Some?
    ensures 0 < n <= turns && WalkFor(read, pos, n).Some? && WalkFor(read, pos, n - 1).None?
  {
    if WalkFor(read, pos, turns - 1).None? then turns else Fewest(read, pos, turns - 1)
  }

  /** Along a walk that needs exactly so many reads, every place needs one fewer: so none comes twice. */
  lemma {:induction false} PlacesNeedFewer<E>(read: Reader<E>, pos: nat, turns: nat, i: nat)
    requires turns > 0 && WalkFor(read, pos, turns).Some? && WalkFor(read, pos, turns - 1).None?
    requires i < |Places(read, pos, turns)|
    ensures i < turns
    ensures var p := Places(read, pos, turns)[i];
            WalkFor(read, p, turns - i).Some? && WalkFor(read, p, turns - i - 1).None?
    decreases turns
  {
    if i == 0 {
    } else {
      PlacesNeedFewer(read, read(pos).value.1.value, turns - 1, i - 1);
    }
  }

  lemma {:induction false} PlacesLong<E>(read: Reader<E>, pos: nat, turns: nat)
    requires turns > 0 && WalkFor(read, pos, turns).Some? && WalkFor(read, pos, turns - 1).None?
    ensures |Places(read, pos, turns)| >= turns - 1
    ensures forall i :: 0 <= i < |Places(read, pos, turns)| ==> read(Places(read, pos, turns)[i]).Some?
    decreases turns
  {
    if turns == 1 || read(pos).None? || read(pos).value.1.None? {
    } else {
      PlacesLong(read, read(pos).value.1.value, turns - 1);
    }
  }

  lemma {:induction false} PlacesDistinct<E>(read: Reader<E>, pos: nat, turns: nat)
    requires turns > 0 && WalkFor(read, pos, turns).Some? && WalkFor(read, pos, turns - 1).None?
    ensures var p := Places(read, pos, turns); forall i, j :: 0 <= i < j < |p| ==> p[i] != p[j]
  {
    var p := Places(read, pos, turns);
    forall i, j | 0 <= i < j < |p|
      ensures p[i] != p[j]
    {
      PlacesNeedFewer(read, pos, turns, i);
      PlacesNeedFewer(read, pos, turns, j);
      if p[i] == p[j] {
        WalkMonotone(read, p[j], turns - j, turns - i - 1);
        assert false;
      }
    }
  }

  /** Numbers below a limit without repetition are at most so many. */
  lemma {:induction false} FewBelow(s: seq<nat>, limit: nat)
    requires (forall i :: 0 <= i < |s| ==> s[i] < limit) && forall i, j :: 0 <= i < j < |s| ==> s[i] != s[j]
    ensures |s| <= limit
  {
    SetOfDistinct(s);
    BelowSize(Elements(s), limit);
  }

  function Elements(s: seq<nat>): set<nat> {
    set x | x in s
  }

  lemma {:induction false} SetOfDistinct(s: seq<nat>)
    requires forall i, j :: 0 <= i < j < |s| ==> s[i] != s[j]
    ensures |Elements(s)| == |s|
  {
    if s == [] {
      assert Elements(s) == {};
    } else {
      SetOfDistinct(s[1..]);
      assert s[0] !in s[1..];
      assert Elements(s) == Elements(s[1..]) + {s[0]};
    }
  }

  lemma {:induction false} BelowSize(s: set<nat>, limit: nat)
    requires forall x :: x in s ==> x < limit
    ensures |s| <= limit
  {
    if limit == 0 {
      assert s == {};
    } else {
      BelowSize(s - {limit - 1}, limit - 1);
    }
  }

  /** A walk ends at all if and only if it ends within one read more than there are places. */
  lemma {:induction false} EndsSoon<E>(read: Reader<E>, pos: nat, limit: nat)
    requires Within(read, limit)
    ensures Ends(read, pos) <==> WalkFor(read, pos, limit + 1).Some?
  {
    if Ends(read, pos) {
      var turns :| WalkFor(read, pos, turns).Some?;
      var n := Fewest(read, pos, turns);
      PlacesLong(read, pos, n);
      PlacesDistinct(read, pos, n);
      FewBelow(Places(read, pos, n), limit);
      WalkMonotone(read, pos, n, limit + 1);
    }
  }

  /** A walk that only ever moves forward ends. */
  lemma {:induction false} ForwardEnds<E>(read: Reader<E>, pos: nat, limit: nat, turns: nat)
    requires forall p: nat :: read(p).Some? ==> p < limit && (read(p).value.1.Some? ==> p < read(p).value.1.value)
    requires turns > 0 && pos + turns > limit
    ensures WalkFor(read, pos, turns).Some?
    decreases turns
  {
    if read(pos).None? || read(pos).value.1.None? {
    } else {
      ForwardEnds(read, read(pos).value.1.value, limit, turns - 1);
    }
  }

  /** A record that leads back to its own place is read for ever. */
  lemma {:induction false} LoopNeverEnds<E>(read: Reader<E>, at: nat, turns: nat)
    requires read(at).Some? && read(at).value.1 == Some(at)
    ensures WalkFor(read, at, turns).None?
  {
    if turns == 0 {
    } else {
      LoopNeverEnds(read, at, turns - 1);
    }
  }

  // ----- Walking a log -----

  /**
    If the record lies at this place, the reader gives its view and the place right after it, or
    nothing if the record is one that stops it.
   */
  ghost predicate ReadsAt<E, F>(read: Reader<F>, file: seq<Byte>, encode: Encoder<E>, stops: E -> bool,
                                view: (E, nat) -> F, e: E, at: nat)
  {
    BytesAt(file, at, encode(e)) ==>
      encode(e) != [] && read(at) == if stops(e) then None else Some((view(e, at), Some(at + |encode(e)|)))
  }

  /** The reader does so for every good record, wherever it lies in the file. */
  ghost predicate Recognises<E(!new), F>(read: Reader<F>, file: seq<Byte>, encode: Encoder<E>, stops: E -> bool,
                                         view: (E, nat) -> F, good: E -> bool)
  {
    forall e, at: nat :: good(e) ==> ReadsAt(read, file, encode, stops, view, e, at)
  }

  /** The views of a log's records, up to the first one that stops the reader. */
  function Views<E, F>(encode: Encoder<E>, stops: E -> bool, view: (E, nat) -> F, items: seq<E>, pos: nat): seq<F>
    decreases |items|
  {
    if items == [] || stops(items[0]) then []
    else [view(items[0], pos)] + Views(encode, stops, view, items[1..], pos + |encode(items[0])|)
  }

  /** Such a reader walks a log of good records from one to the next, misses none and comes to an end. */
  lemma {:induction false} WalkLog<E(!new), F>(read: Reader<F>, file: seq<Byte>, encode: Encoder<E>, stops: E -> bool,
                                               view: (E, nat) -> F, good: E -> bool, items: seq<E>, pos: nat, turns: nat)
    requires Recognises(read, file, encode, stops, view, good) && Within(read, |file|)
    requires pos <= |file| && file[pos..] == Log(encode, items) && pos + turns > |file|
    requires forall i :: 0 <= i < |items| ==> good(items[i])
    ensures WalkFor(read, pos, turns) == Some(Views(encode, stops, view, items, pos))
    decreases |items|
  {
    if items == [] {
      assert pos == |file|;
    } else {
      SplitTail(file, pos, encode(items[0]), Log(encode, items[1..]));
      assert ReadsAt(read, file, encode, stops, view, items[0], pos);
      if stops(items[0]) {
      } else {
        WalkLog(read, file, encode, stops, view, good, items[1..], pos + |encode(items[0])|, turns - 1);
      }
    }
  }

  /** The records of a log lie one after the other up to the end of the file. */
  ghost predicate LogAt<E>(file: seq<Byte>, encode: Encoder<E>, items: seq<E>, pos: nat)
    decreases |items|
  {
    if items == [] then pos == |file|
    else BytesAt(file, pos, encode(items[0])) && LogAt(file, encode, items[1..], pos + |encode(items[0])|)
  }

  lemma {:induction false} LogIsThere<E>(file: seq<Byte>, encode: Encoder<E>, items: seq<E>, pos: nat)
    requires pos <= |file| && file[pos..] == Log(encode, items)
    ensures LogAt(file, encode, items, pos)
    decreases |items|
  {
    if items == [] {
    } else {
      SplitTail(file, pos, encode(items[0]), Log(encode, items[1..]));
      LogIsThere(file, encode, items[1..], pos + |encode(items[0])|);
    }
  }
}
