/**
  A file transfer whose sender may read less than a chunk. The receiver refuses a short chunk unless it
  is the last one; a short last chunk is marked like a whole one, and its rest stays zero.
 */
module ShortReads {
  import opened Common
  import opened Files
  import opened FileTransfer
  import ResumeMap

  /** A chunk of which the sender's read gives `got` bytes, as it arrives. */
  datatype Sending = Sending(index: nat, got: nat, written: nat, readable: bool)

  function Data(source: seq<Byte>, chunkSize: nat, a: Sending): seq<Byte> {
    var whole := ChunkFor(source, chunkSize, a.index).data;
    if a.got < |whole| then whole[..a.got] else whole
  }

  function CallOf(source: seq<Byte>, chunkSize: nat, a: Sending): Call {
    Call(Chunk(a.index, Data(source, chunkSize, a), true), a.written, a.readable)
  }

  function Calls(source: seq<Byte>, chunkSize: nat, sendings: seq<Sending>): seq<Call> {
    seq(|sendings|, k requires 0 <= k < |sendings| => CallOf(source, chunkSize, sendings[k]))
  }

  function Last(source: seq<Byte>, chunkSize: nat): nat
    requires chunkSize > 0 && source != []
  {
    LastChunk(|source|, chunkSize);
    ChunkCount(|source|, chunkSize) - 1
  }

  /** Which chunks have landed, and how many bytes of the last chunk's place have ever been written. */
  datatype Landing = Landing(got: set<nat>, reach: nat)

  function Land(source: seq<Byte>, chunkSize: nat, l: Landing, a: Sending): Landing
    requires chunkSize > 0 && source != []
  {
    var data, last := Data(source, chunkSize, a), Last(source, chunkSize);
    if a.index in l.got || (a.index != last && |data| != chunkSize) then l
    else
      Landing(if a.written >= |data| then l.got + {a.index} else l.got,
              if a.index == last && l.reach < Min(a.written, |data|) then Min(a.written, |data|) else l.reach)
  }

  function LandAll(source: seq<Byte>, chunkSize: nat, l: Landing, sendings: seq<Sending>): Landing
    requires chunkSize > 0 && source != []
    decreases |sendings|
  {
    if sendings == [] then l
    else LandAll(source, chunkSize, Land(source, chunkSize, l, sendings[0]), sendings[1..])
  }

  /** The source up to a place, and zeros from there on. */
  function CutAt(source: seq<Byte>, h: nat): seq<Byte>
    requires h <= |source|
  {
    source[..h] + Zeros(|source| - h)
  }

  lemma {:induction false} CutIsWholeIff(source: seq<Byte>, h: nat)
    requires h <= |source|
    ensures CutAt(source, h) == source <==> forall p :: h <= p < |source| ==> source[p] == 0
  {
    if CutAt(source, h) == source {
      forall p | h <= p < |source|
        ensures source[p] == 0
      {
        assert CutAt(source, h)[p] == 0;
      }
    }
  }

  // ----- What the receiver keeps -----

  /** How far the last chunk's place is written. */
  function End(source: seq<Byte>, chunkSize: nat, l: Landing): nat
    requires chunkSize > 0 && source != []
  {
    Last(source, chunkSize) * chunkSize + l.reach
  }

  /** Bytes of landed chunks are the source's; in the last chunk's place they are up to the reach, then zero. */
  ghost predicate Written(dest: seq<Byte>, source: seq<Byte>, chunkSize: nat, l: Landing)
    requires chunkSize > 0 && source != []
  {
    && |dest| == |source| && End(source, chunkSize, l) <= |source|
    && forall p :: 0 <= p < |source| ==>
         var i := Owner(p, chunkSize);
         && (i in l.got && i != Last(source, chunkSize) ==> dest[p] == source[p])
         && (i == Last(source, chunkSize) ==> dest[p] == if p < End(source, chunkSize, l) then source[p] else 0)
  }

  ghost predicate Follows(rx: Rx, source: seq<Byte>, chunkSize: nat, digest: Digest, l: Landing)
    requires chunkSize > 0 && source != []
  {
    && Consistent(rx, MetaOf(source, chunkSize, digest))
    && (forall i :: 0 <= i < ChunkCount(|source|, chunkSize) ==> (ResumeMap.Has(rx.bits, i) <==> i in l.got))
    && Written(rx.dest, source, chunkSize, l)
  }

  lemma {:induction false} LastOwns(source: seq<Byte>, chunkSize: nat, p: nat)
    requires chunkSize > 0 && source != [] && p < |source|
    ensures Owner(p, chunkSize) == Last(source, chunkSize) <==> Last(source, chunkSize) * chunkSize <= p
    ensures Owner(p, chunkSize) <= Last(source, chunkSize)
  {
    LastChunk(|source|, chunkSize);
    OwnerIs(p, chunkSize, Last(source, chunkSize));
    OwnerInRange(p, |source|, chunkSize);
  }

  /** Writing the first bytes of a read to the last chunk's place extends the reach. */
  lemma {:induction false} WriteLast(dest: seq<Byte>, source: seq<Byte>, chunkSize: nat, l: Landing, k: nat, l': Landing)
    requires chunkSize > 0 && source != [] && Written(dest, source, chunkSize, l)
    requires k <= |ChunkFor(source, chunkSize, Last(source, chunkSize)).data|
    requires l'.reach == (if l.reach < k then k else l.reach) && l'.got <= l.got + {Last(source, chunkSize)}
    ensures var last := Last(source, chunkSize);
            Written(WriteAt(dest, last * chunkSize, ChunkFor(source, chunkSize, last).data[..k]), source, chunkSize, l')
  {
    var last := Last(source, chunkSize);
    var off, whole := last * chunkSize, ChunkFor(source, chunkSize, last).data;
    SentIsAcceptable(source, chunkSize, last, x => x);
    WriteInside(dest, off, whole[..k]);
    assert forall j :: 0 <= j < |whole| ==> whole[j] == source[off + j];
    hide WriteAt, Owner, Last, Window;
    var w := WriteAt(dest, off, whole[..k]);
    forall p | 0 <= p < |source|
      ensures var i := Owner(p, chunkSize);
              && (i in l'.got && i != last ==> w[p] == source[p])
              && (i == last ==> w[p] == if p < off + l'.reach then source[p] else 0)
    {
      LastOwns(source, chunkSize, p);
      if off <= p < off + k {
        assert w[p] == whole[..k][p - off] == whole[p - off] == source[p];
      } else {
        assert w[p] == dest[p];
      }
    }
  }

  /** Writing to another chunk's place leaves the last one's alone. */
  lemma {:induction false} WriteOther(dest: seq<Byte>, source: seq<Byte>, chunkSize: nat, l: Landing, i: nat, k: nat,
                                      l': Landing)
    requires chunkSize > 0 && source != [] && Written(dest, source, chunkSize, l) && i < Last(source, chunkSize)
    requires var whole := ChunkFor(source, chunkSize, i).data;
             k <= |whole| && l'.reach == l.reach && l'.got == if k == |whole| then l.got + {i} else l.got
    ensures Written(WriteAt(dest, i * chunkSize, ChunkFor(source, chunkSize, i).data[..k]), source, chunkSize, l')
  {
    hide WriteAt, Owner;
    WriteSent(dest, source, chunkSize, i, k);
  }

  lemma {:induction false} DataIsPrefix(source: seq<Byte>, chunkSize: nat, a: Sending, k: nat)
    requires k <= |Data(source, chunkSize, a)|
    ensures k <= |ChunkFor(source, chunkSize, a.index).data|
    ensures Data(source, chunkSize, a)[..k] == ChunkFor(source, chunkSize, a.index).data[..k]
    ensures |ChunkFor(source, chunkSize, a.index).data| <= chunkSize
  {
  }

  /** One arrival writes as `Land` says. */
  lemma {:induction false} LandWrites(dest: seq<Byte>, source: seq<Byte>, chunkSize: nat, l: Landing, a: Sending)
    requires chunkSize > 0 && source != [] && Written(dest, source, chunkSize, l)
    requires a.index < ChunkCount(|source|, chunkSize) && a.index !in l.got
    requires a.index == Last(source, chunkSize) || |Data(source, chunkSize, a)| == chunkSize
    ensures var data := Data(source, chunkSize, a);
            var k := Min(a.written, |data|);
            Written(WriteAt(dest, a.index * chunkSize, data[..k]), source, chunkSize, Land(source, chunkSize, l, a))
  {
    hide WriteAt, Written, ChunkFor, Data;
    var k := Min(a.written, |Data(source, chunkSize, a)|);
    DataIsPrefix(source, chunkSize, a, k);
    DataIsPrefix(source, chunkSize, a, |Data(source, chunkSize, a)|);
    if a.index == Last(source, chunkSize) {
      WriteLast(dest, source, chunkSize, l, k, Land(source, chunkSize, l, a));
    } else {
      WriteOther(dest, source, chunkSize, l, a.index, k, Land(source, chunkSize, l, a));
    }
  }

  /** What a call writes, as far as the disk takes it. */
  function Put(dest: seq<Byte>, meta: Meta, call: Call): seq<Byte> {
    WriteAt(dest, call.chunk.index * meta.chunkSize, call.chunk.data[..Min(call.written, |call.chunk.data|)])
  }

  function Marks(bits: seq<Byte>, call: Call): seq<Byte>
    requires call.chunk.index / 8 < |bits|
  {
    if call.written < |call.chunk.data| then bits else ResumeMap.Marked(bits, call.chunk.index)
  }

  /** The state after a call, by how the arrival lands. */
  lemma {:induction false} DeliverCases(rx: Rx, meta: Meta, digest: Digest, call: Call)
    requires Sized(rx, meta) && (call.chunk.index < meta.totalChunks ==> call.chunk.index / 8 < |rx.bits|)
    ensures var c, after := call.chunk, Deliver(rx, meta, digest, call.chunk, call.written, call.readable).0;
            if !Acceptable(meta, c) || ResumeMap.Has(rx.bits, c.index) then after == rx
            else after.dest == Put(rx.dest, meta, call) && after.bits == Marks(rx.bits, call)
  {
    hide WriteAt, ResumeMap.Has, ResumeMap.Marked;
    assert call.chunk.data[..|call.chunk.data|] == call.chunk.data;
  }

  lemma {:induction false} CallIsConsistent(rx: Rx, meta: Meta, digest: Digest, call: Call)
    requires Consistent(rx, meta)
    ensures Consistent(Deliver(rx, meta, digest, call.chunk, call.written, call.readable).0, meta)
  {
    hide Deliver;
    if rx.received == meta.totalChunks {
      CompleteIsFinal(rx, meta, digest, call);
    } else {
      CallKeepsConsistent(rx, meta, digest, call);
    }
  }

  lemma {:induction false} AcceptableIff(source: seq<Byte>, chunkSize: nat, digest: Digest, a: Sending)
    requires chunkSize > 0 && source != [] && a.index < ChunkCount(|source|, chunkSize)
    ensures Acceptable(MetaOf(source, chunkSize, digest), CallOf(source, chunkSize, a).chunk) <==>
            a.index == Last(source, chunkSize) || |Data(source, chunkSize, a)| == chunkSize
  {
    DataIsPrefix(source, chunkSize, a, |Data(source, chunkSize, a)|);
  }

  lemma {:induction false} MarksFollow(rx: Rx, source: seq<Byte>, chunkSize: nat, digest: Digest, l: Landing,
                                       a: Sending)
    requires chunkSize > 0 && source != [] && Follows(rx, source, chunkSize, digest, l)
    requires a.index < ChunkCount(|source|, chunkSize)
    ensures var meta, call := MetaOf(source, chunkSize, digest), CallOf(source, chunkSize, a);
            var after := Deliver(rx, meta, digest, call.chunk, call.written, call.readable).0;
            && Consistent(after, meta)
            && forall i :: 0 <= i < ChunkCount(|source|, chunkSize) ==>
                 (ResumeMap.Has(after.bits, i) <==> i in Land(source, chunkSize, l, a).got)
  {
    var meta, call := MetaOf(source, chunkSize, digest), CallOf(source, chunkSize, a);
    hide Deliver, Written, Data, ChunkCount, ResumeMap.Has, ResumeMap.Marked, ResumeMap.Count;
    CallIsConsistent(rx, meta, digest, call);
    ResumeMap.InMap(a.index, meta.totalChunks, |rx.bits|);
    DeliverCases(rx, meta, digest, call);
    AcceptableIff(source, chunkSize, digest, a);
    if a.index !in l.got {
      MarkAdds(rx.bits, ChunkCount(|source|, chunkSize), l.got, a.index);
    }
  }

  lemma {:induction false} CallFollows(rx: Rx, source: seq<Byte>, chunkSize: nat, digest: Digest, l: Landing, a: Sending)
    requires chunkSize > 0 && source != [] && Follows(rx, source, chunkSize, digest, l)
    requires a.index < ChunkCount(|source|, chunkSize)
    ensures var call := CallOf(source, chunkSize, a);
            var meta := MetaOf(source, chunkSize, digest);
            var after := Deliver(rx, meta, digest, call.chunk, call.written, call.readable).0;
            Follows(after, source, chunkSize, digest, Land(source, chunkSize, l, a))
  {
    var meta, call := MetaOf(source, chunkSize, digest), CallOf(source, chunkSize, a);
    hide Deliver, Written, Data, ChunkCount, WriteAt, ResumeMap.Has, ResumeMap.Marked, ResumeMap.Count;
    MarksFollow(rx, source, chunkSize, digest, l, a);
    ResumeMap.InMap(a.index, meta.totalChunks, |rx.bits|);
    DeliverCases(rx, meta, digest, call);
    AcceptableIff(source, chunkSize, digest, a);
    if a.index !in l.got && Acceptable(meta, call.chunk) {
      LandWrites(rx.dest, source, chunkSize, l, a);
    }
  }

  // ----- Whole transfers -----

  lemma {:induction false} RunFollows(rx: Rx, source: seq<Byte>, chunkSize: nat, digest: Digest, l: Landing,
                                      sendings: seq<Sending>)
    requires chunkSize > 0 && source != [] && Follows(rx, source, chunkSize, digest, l)
    requires forall k :: 0 <= k < |sendings| ==> sendings[k].index < ChunkCount(|source|, chunkSize)
    ensures var last := CallAll(rx, MetaOf(source, chunkSize, digest), digest, Calls(source, chunkSize, sendings)).0;
            Follows(last, source, chunkSize, digest, LandAll(source, chunkSize, l, sendings))
    decreases |sendings|
  {
    assert Sized(rx, MetaOf(source, chunkSize, digest));
    hide Follows, Deliver, Land, ChunkCount, CallOf;
    if sendings == [] {
    } else {
      var meta, call := MetaOf(source, chunkSize, digest), CallOf(source, chunkSize, sendings[0]);
      CallFollows(rx, source, chunkSize, digest, l, sendings[0]);
      DeliverKeepsSize(rx, meta, digest, call.chunk, call.written, call.readable);
      var next := Deliver(rx, meta, digest, call.chunk, call.written, call.readable).0;
      assert Calls(source, chunkSize, sendings)[1..] == Calls(source, chunkSize, sendings[1..]);
      RunFollows(next, source, chunkSize, digest, Land(source, chunkSize, l, sendings[0]), sendings[1..]);
    }
  }

  lemma {:induction false} StartFollows(source: seq<Byte>, chunkSize: nat, digest: Digest)
    requires chunkSize > 0 && source != []
    ensures Follows(Start(source, chunkSize), source, chunkSize, digest, Landing({}, 0))
    ensures !Start(source, chunkSize).hashDone
  {
    hide Owner, ResumeMap.Has, ResumeMap.Count;
    LastChunk(|source|, chunkSize);
    forall p | 0 <= p < |source|
      ensures Owner(p, chunkSize) == Last(source, chunkSize) <==> Last(source, chunkSize) * chunkSize <= p
    {
      LastOwns(source, chunkSize, p);
    }
    ResumeMap.CountZero(Start(source, chunkSize).bits, ChunkCount(|source|, chunkSize));
  }

  lemma {:induction false} FullIsCut(rx: Rx, source: seq<Byte>, chunkSize: nat, digest: Digest, l: Landing)
    requires chunkSize > 0 && source != [] && Follows(rx, source, chunkSize, digest, l) && Full(source, chunkSize, l.got)
    ensures rx.dest == CutAt(source, End(source, chunkSize, l))
  {
    hide Owner, Last;
    forall p | 0 <= p < |source|
      ensures rx.dest[p] == CutAt(source, End(source, chunkSize, l))[p]
    {
      LastOwns(source, chunkSize, p);
      OwnerInRange(p, |source|, chunkSize);
    }
  }

  /**
    Chunks of a non-empty file in any order, with any repetitions, short reads, failed writes and failed
    reading back. Once all have landed the destination is the source up to the furthest byte written in
    the last chunk's place and zero from there on, for ever. A mismatch is returned exactly if the file
    could be read back then and this does not have the source's digest.
   */
  lemma {:induction false} ShortReadsMismatchIff(source: seq<Byte>, chunkSize: nat, digest: Digest,
                                                 sendings: seq<Sending>, more: seq<Call>)
    requires chunkSize > 0 && source != []
    requires forall k :: 0 <= k < |sendings| ==> sendings[k].index < ChunkCount(|source|, chunkSize)
    ensures var meta := MetaOf(source, chunkSize, digest);
            var (last, results) := CallAll(Start(source, chunkSize), meta, digest, Calls(source, chunkSize, sendings));
            var l := LandAll(source, chunkSize, Landing({}, 0), sendings);
            && Consistent(last, meta) && End(source, chunkSize, l) <= |source|
            && (last.received == meta.totalChunks <==> Full(source, chunkSize, l.got))
            && (Full(source, chunkSize, l.got) ==>
                  last.dest == CutAt(source, End(source, chunkSize, l)) && CallAll(last, meta, digest, more).0 == last)
            && (HashMismatch in results <==>
                  last.hashDone && digest(CutAt(source, End(source, chunkSize, l))) != digest(source))
  {
    var meta := MetaOf(source, chunkSize, digest);
    StartFollows(source, chunkSize, digest);
    RunFollows(Start(source, chunkSize), source, chunkSize, digest, Landing({}, 0), sendings);
    RunsOfCalls(Start(source, chunkSize), meta, digest, Calls(source, chunkSize, sendings));
    var (last, results) := CallAll(Start(source, chunkSize), meta, digest, Calls(source, chunkSize, sendings));
    var l := LandAll(source, chunkSize, Landing({}, 0), sendings);
    OutcomesAre(results);
    ResumeMap.CountFull(last.bits, meta.totalChunks);
    hide CallAll, Start, Calls, LandAll, Outcomes, Owner, ChunkCount, ResumeMap.Has, ResumeMap.Count;
    if Full(source, chunkSize, l.got) {
      FullIsCut(last, source, chunkSize, digest, l);
      AfterCompletion(last, meta, digest, more);
    }
  }

  /** A file of two bytes in one chunk, of which the sender reads one: the transfer ends in a mismatch. */
  lemma {:induction false} OneShortRead(digest: Digest)
    requires digest([1, 0]) != digest([1, 2])
    ensures var (last, results) := CallAll(Start([1, 2], 2), MetaOf([1, 2], 2, digest), digest,
                                           Calls([1, 2], 2, [Sending(0, 1, 1, true)]));
            HashMismatch in results && last.dest == [1, 0]
  {
    var source, a: Sending := [1, 2], Sending(0, 1, 1, true);
    var meta, call := MetaOf(source, 2, digest), CallOf(source, 2, a);
    assert meta.totalChunks == 1 && Data(source, 2, a) == [1];
    var rx := Start(source, 2);
    StartFollows(source, 2, digest);
    ShortReadsMismatchIff(source, 2, digest, [a], []);
    assert Calls(source, 2, [a]) == [call] && [call][1..] == [] && [a][1..] == [];
    hide Deliver, Follows, ResumeMap.Has, ResumeMap.Count;
    var l := LandAll(source, 2, Landing({}, 0), [a]);
    assert l == Land(source, 2, Landing({}, 0), a) == Landing({0}, 1);
    assert CutAt(source, End(source, 2, l)) == [1, 0];
    CallKeepsConsistent(rx, meta, digest, call);
    assert CallAll(rx, meta, digest, [call]).0 == Deliver(rx, meta, digest, call.chunk, call.written, call.readable).0;
  }
}
