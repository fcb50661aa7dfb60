/**
  File transfer in chunks: what the sender reads, how the receiver writes chunks that arrive in any
  order, more than once, and with failing writes in between, and when it reports completion.
 */
module FileTransfer {
  import opened Common
  import opened Files
  import ResumeMap

  datatype Meta = Meta(totalSize: nat, chunkSize: nat, totalChunks: nat, digest: seq<Byte>)

  /** A chunk as unpacked from the wire, with the verdict on its checksum. */
  datatype Chunk = Chunk(index: nat, data: seq<Byte>, crcOk: bool)

  datatype Result = Accepted | Duplicate | BadChunk | BadMeta | Complete | HashMismatch | IoError

  type Digest = seq<Byte> -> seq<Byte>

  // ----- The sender's arithmetic -----

  function ChunkCount(size: nat, chunkSize: nat): nat
    requires chunkSize > 0
  {
    if size == 0 then 0 else (size + chunkSize - 1) / chunkSize
  }

  function MetaOf(source: seq<Byte>, chunkSize: nat, digest: Digest): Meta
    requires chunkSize > 0
  {
    Meta(|source|, chunkSize, ChunkCount(|source|, chunkSize), digest(source))
  }

  /** The chunk the sender reads for an index. */
  function ChunkFor(source: seq<Byte>, chunkSize: nat, i: nat): Chunk {
    Chunk(i, Window(source, i * chunkSize, chunkSize), true)
  }

  // ----- The receiver on values -----

  datatype Rx = Rx(dest: seq<Byte>, bits: seq<Byte>, received: nat, hashDone: bool)

  function Zeros(n: nat): (r: seq<Byte>)
    ensures |r| == n && forall k :: 0 <= k < n ==> r[k] == 0
  {
    seq(n, _ => 0)
  }

  /** A write at an offset; writing past the end extends the file with zeros first. */
  function WriteAt(file: seq<Byte>, off: nat, data: seq<Byte>): seq<Byte> {
    if data == [] then file
    else
      var f := if |file| < off + |data| then file + Zeros(off + |data| - |file|) else file;
      f[..off] + data + f[off + |data|..]
  }

  predicate Acceptable(meta: Meta, c: Chunk) {
    && c.index < meta.totalChunks && |c.data| <= meta.chunkSize
    && (c.index + 1 < meta.totalChunks ==> |c.data| == meta.chunkSize)
    && c.crcOk
  }

  /** Room for every chunk's mark. */
  predicate Sized(rx: Rx, meta: Meta) {
    ResumeMap.Size(meta.totalChunks) <= |rx.bits|
  }

  /**
    One chunk, of which the disk takes the first `written` bytes before it fails, or all. The last one
    has the file read back for its digest, if it can be read.
   */
  function Deliver(rx: Rx, meta: Meta, digest: Digest, c: Chunk, written: nat, readable: bool): (Rx, Result)
    requires Sized(rx, meta)
  {
    if !Acceptable(meta, c) then (rx, BadChunk)
    else if ResumeMap.Has(rx.bits, c.index) then (rx, Duplicate)
    else if written < |c.data| then
      (rx.(dest := WriteAt(rx.dest, c.index * meta.chunkSize, c.data[..written])), IoError)
    else
      var dest := WriteAt(rx.dest, c.index * meta.chunkSize, c.data);
      var after := Rx(dest, ResumeMap.Marked(rx.bits, c.index), rx.received + 1, rx.hashDone);
      if after.received != meta.totalChunks then (after, Accepted)
      else if rx.hashDone then (after, Complete)
      else if !readable then (after, IoError)
      else (after.(hashDone := true), if digest(dest) == meta.digest then Complete else HashMismatch)
  }

  // ----- Chunks of the sender's file -----

  lemma {:induction false} MulMono(a: nat, b: nat, c: nat)
    requires a <= b
    ensures a * c <= b * c
  {
    assert (b - a) * c >= 0;
  }

  /** Every byte of the file belongs to exactly one chunk. */
  lemma {:induction false} ChunkOfByte(p: nat, chunkSize: nat, i: nat)
    requires chunkSize > 0
    ensures p / chunkSize == i <==> i * chunkSize <= p < (i + 1) * chunkSize
  {
    var q := p / chunkSize;
    assert q * chunkSize <= p < (q + 1) * chunkSize;
    if q < i {
      MulMono(q + 1, i, chunkSize);
    } else if q > i {
      MulMono(i + 1, q, chunkSize);
    }
  }

  lemma {:induction false} LastChunk(size: nat, chunkSize: nat)
    requires chunkSize > 0 && size > 0
    ensures var n := ChunkCount(size, chunkSize); n > 0 && (n - 1) * chunkSize < size <= n * chunkSize
  {
    var n := (size + chunkSize - 1) / chunkSize;
    assert n * chunkSize <= size + chunkSize - 1 < (n + 1) * chunkSize;
    assert (n - 1) * chunkSize == n * chunkSize - chunkSize;
    assert (n + 1) * chunkSize == n * chunkSize + chunkSize;
  }

  /** The sender's chunks are acceptable and not empty; only the last may be short. */
  lemma {:induction false} SentIsAcceptable(source: seq<Byte>, chunkSize: nat, i: nat, digest: Digest)
    requires chunkSize > 0 && i < ChunkCount(|source|, chunkSize)
    ensures Acceptable(MetaOf(source, chunkSize, digest), ChunkFor(source, chunkSize, i))
    ensures i * chunkSize < |source| && 0 < |ChunkFor(source, chunkSize, i).data|
    ensures i * chunkSize + |ChunkFor(source, chunkSize, i).data| <= |source|
  {
    var n := ChunkCount(|source|, chunkSize);
    LastChunk(|source|, chunkSize);
    MulMono(i, n - 1, chunkSize);
    if i + 1 < n {
      MulMono(i + 1, n - 1, chunkSize);
      assert (i + 1) * chunkSize == i * chunkSize + chunkSize;
    }
  }

  // ----- What the receiver keeps -----

  /** The chunk a byte belongs to. */
  function Owner(p: nat, chunkSize: nat): nat
    requires chunkSize > 0
  {
    p / chunkSize
  }

  /** The chunks in `got` are marked, counted and written; the others are not marked. */
  ghost predicate Tracks(rx: Rx, source: seq<Byte>, chunkSize: nat, got: set<nat>)
    requires chunkSize > 0
  {
    var n := ChunkCount(|source|, chunkSize);
    && |rx.dest| == |source| && ResumeMap.Size(n) <= |rx.bits|
    && (forall i :: 0 <= i < n ==> (ResumeMap.Has(rx.bits, i) <==> i in got))
    && rx.received == ResumeMap.Count(rx.bits, n)
    && (rx.hashDone <==> rx.received == n)
    && (forall p :: 0 <= p < |source| && Owner(p, chunkSize) in got ==> rx.dest[p] == source[p])
  }

  ghost predicate Full(source: seq<Byte>, chunkSize: nat, got: set<nat>)
    requires chunkSize > 0
  {
    forall i :: 0 <= i < ChunkCount(|source|, chunkSize) ==> i in got
  }

  lemma {:induction false} WriteInside(file: seq<Byte>, off: nat, data: seq<Byte>)
    requires off + |data| <= |file|
    ensures var w := WriteAt(file, off, data);
            && |w| == |file|
            && forall p :: 0 <= p < |file| ==> w[p] == if off <= p < off + |data| then data[p - off] else file[p]
  {
  }

  /** Writing any front part of the sender's chunk only puts source bytes into that chunk's place. */
  lemma {:induction false} WriteSent(file: seq<Byte>, source: seq<Byte>, chunkSize: nat, i: nat, written: nat)
    requires chunkSize > 0 && i < ChunkCount(|source|, chunkSize) && |file| == |source|
    requires written <= |ChunkFor(source, chunkSize, i).data|
    ensures var data := ChunkFor(source, chunkSize, i).data;
            var w := WriteAt(file, i * chunkSize, data[..written]);
            && |w| == |source|
            && (forall p :: 0 <= p < |source| ==> w[p] == file[p] || (w[p] == source[p] && Owner(p, chunkSize) == i))
            && (written == |data| ==> forall p :: 0 <= p < |source| && Owner(p, chunkSize) == i ==> w[p] == source[p])
  {
    var data := ChunkFor(source, chunkSize, i).data;
    var off := i * chunkSize;
    SentIsAcceptable(source, chunkSize, i, x => x);
    WriteInside(file, off, data[..written]);
    assert (i + 1) * chunkSize == off + chunkSize;
    hide Owner, WriteAt;
    forall p | 0 <= p < |source|
      ensures Owner(p, chunkSize) == i <==> off <= p < off + chunkSize
    {
      OwnerIs(p, chunkSize, i);
    }
  }

  lemma {:induction false} OwnerIs(p: nat, chunkSize: nat, i: nat)
    requires chunkSize > 0
    ensures Owner(p, chunkSize) == i <==> i * chunkSize <= p < (i + 1) * chunkSize
  {
    ChunkOfByte(p, chunkSize, i);
  }

  /** Every byte's chunk is one of the sender's chunks. */
  lemma {:induction false} OwnerInRange(p: nat, size: nat, chunkSize: nat)
    requires chunkSize > 0 && p < size
    ensures Owner(p, chunkSize) < ChunkCount(size, chunkSize)
  {
    var n := ChunkCount(size, chunkSize);
    LastChunk(size, chunkSize);
    var q := p / chunkSize;
    assert q * chunkSize <= p;
    if q >= n {
      MulMono(n, q, chunkSize);
    }
  }

  /** With all chunks written the destination is the source. */
  lemma {:induction false} FullMeansEqual(rx: Rx, source: seq<Byte>, chunkSize: nat, got: set<nat>)
    requires chunkSize > 0 && Tracks(rx, source, chunkSize, got) && Full(source, chunkSize, got)
    ensures rx.dest == source
  {
    hide Owner;
    forall p | 0 <= p < |source|
      ensures rx.dest[p] == source[p]
    {
      OwnerInRange(p, |source|, chunkSize);
    }
  }

  /** One arrival of a chunk of the sender's. */
  lemma {:induction false} DeliverSent(rx: Rx, source: seq<Byte>, chunkSize: nat, digest: Digest, got: set<nat>,
                                       i: nat, written: nat)
    requires chunkSize > 0 && i < ChunkCount(|source|, chunkSize) && Tracks(rx, source, chunkSize, got)
    ensures var c := ChunkFor(source, chunkSize, i);
            var (after, r) := Deliver(rx, MetaOf(source, chunkSize, digest), digest, c, written, true);
            if i in got then after == rx && r == Duplicate
            else if written < |c.data| then Tracks(after, source, chunkSize, got) && r == IoError
            else Tracks(after, source, chunkSize, got + {i})
                 && r == if Full(source, chunkSize, got + {i}) then Complete else Accepted
  {
    hide Owner, WriteAt, ChunkCount, Window, ResumeMap.Has, ResumeMap.Count, ResumeMap.Marked, ResumeMap.Size;
    SentIsAcceptable(source, chunkSize, i, digest);
    var c := ChunkFor(source, chunkSize, i);
    if i !in got {
      WriteSent(rx.dest, source, chunkSize, i, if written < |c.data| then written else |c.data|);
      if written >= |c.data| {
        assert c.data[..|c.data|] == c.data;
        MarkSent(rx, source, chunkSize, digest, got, i);
        var after := Deliver(rx, MetaOf(source, chunkSize, digest), digest, c, written, true).0;
        if Full(source, chunkSize, got + {i}) {
          FullMeansEqual(after, source, chunkSize, got + {i});
        }
      }
    }
  }

  /** Marking one more chunk. */
  lemma {:induction false} MarkAdds(bits: seq<Byte>, n: nat, got: set<nat>, i: nat)
    requires ResumeMap.Size(n) <= |bits| && i < n && i !in got
    requires forall j :: 0 <= j < n ==> (ResumeMap.Has(bits, j) <==> j in got)
    ensures var after := ResumeMap.Marked(bits, i);
            && |after| == |bits|
            && (forall j :: 0 <= j < n ==> (ResumeMap.Has(after, j) <==> j in got + {i}))
            && ResumeMap.Count(after, n) == ResumeMap.Count(bits, n) + 1
            && (ResumeMap.Count(bits, n) + 1 == n <==> forall j :: 0 <= j < n ==> j in got + {i})
            && ResumeMap.Count(bits, n) != n
  {
    hide ResumeMap.Has, ResumeMap.Count, ResumeMap.Marked;
    var after := ResumeMap.Marked(bits, i);
    MarkedLength(bits, i);
    forall j | 0 <= j < n
      ensures ResumeMap.Has(after, j) <==> j in got + {i}
    {
      ResumeMap.HasMarked(bits, i, j);
    }
    ResumeMap.CountMarked(bits, i, n);
    ResumeMap.CountFull(after, n);
    ResumeMap.CountFull(bits, n);
  }

  /** The bookkeeping when a chunk has been written completely. */
  lemma {:induction false} MarkSent(rx: Rx, source: seq<Byte>, chunkSize: nat, digest: Digest, got: set<nat>, i: nat)
    requires chunkSize > 0 && i < ChunkCount(|source|, chunkSize) && Tracks(rx, source, chunkSize, got) && i !in got
    ensures var n := ChunkCount(|source|, chunkSize);
            var bits := ResumeMap.Marked(rx.bits, i);
            && |bits| == |rx.bits|
            && (forall j :: 0 <= j < n ==> (ResumeMap.Has(bits, j) <==> j in got + {i}))
            && ResumeMap.Count(bits, n) == rx.received + 1
            && (rx.received + 1 == n <==> Full(source, chunkSize, got + {i}))
            && !rx.hashDone
  {
    hide ChunkCount, Owner, ResumeMap.Has, ResumeMap.Count, ResumeMap.Marked;
    MarkAdds(rx.bits, ChunkCount(|source|, chunkSize), got, i);
  }

  lemma {:induction false} MarkedLength(bits: seq<Byte>, i: nat)
    requires i / 8 < |bits|
    ensures |ResumeMap.Marked(bits, i)| == |bits|
  {
  }

  // ----- Whole transfers -----

  /** A chunk of the sender's arrives and the disk takes so many of its bytes. */
  datatype Arrival = Arrival(index: nat, written: nat)

  function Start(source: seq<Byte>, chunkSize: nat): (rx: Rx)
    requires chunkSize > 0
    ensures ResumeMap.Size(ChunkCount(|source|, chunkSize)) <= |rx.bits|
  {
    var n := ChunkCount(|source|, chunkSize);
    Rx(Zeros(|source|), Zeros(if ResumeMap.Size(n) == 0 then 1 else ResumeMap.Size(n)), 0, false)
  }

  lemma {:induction false} StartTracks(source: seq<Byte>, chunkSize: nat)
    requires chunkSize > 0 && source != []
    ensures Tracks(Start(source, chunkSize), source, chunkSize, {})
  {
    hide Owner, ChunkCount, ResumeMap.Has, ResumeMap.Count;
    LastChunk(|source|, chunkSize);
    ResumeMap.CountZero(Start(source, chunkSize).bits, ChunkCount(|source|, chunkSize));
  }

  lemma {:induction false} DeliverKeepsSize(rx: Rx, meta: Meta, digest: Digest, c: Chunk, written: nat, readable: bool)
    requires Sized(rx, meta)
    ensures Sized(Deliver(rx, meta, digest, c, written, readable).0, meta)
  {
    hide WriteAt;
  }

  /** The results of delivering the arrivals one after the other, and the state after them. */
  function DeliverAll(rx: Rx, source: seq<Byte>, chunkSize: nat, digest: Digest, arrivals: seq<Arrival>): (Rx, seq<Result>)
    requires chunkSize > 0 && Sized(rx, MetaOf(source, chunkSize, digest))
    decreases |arrivals|
  {
    if arrivals == [] then (rx, [])
    else
      var meta := MetaOf(source, chunkSize, digest);
      var c := ChunkFor(source, chunkSize, arrivals[0].index);
      DeliverKeepsSize(rx, meta, digest, c, arrivals[0].written, true);
      var (next, r) := Deliver(rx, meta, digest, c, arrivals[0].written, true);
      var (last, rest) := DeliverAll(next, source, chunkSize, digest, arrivals[1..]);
      (last, [r] + rest)
  }

  /** The chunks that have arrived and been written completely. */
  function Landed(source: seq<Byte>, chunkSize: nat, got: set<nat>, arrivals: seq<Arrival>): set<nat>
    decreases |arrivals|
  {
    if arrivals == [] then got
    else
      var a := arrivals[0];
      var lands := a.written >= |ChunkFor(source, chunkSize, a.index).data|;
      Landed(source, chunkSize, if lands then got + {a.index} else got, arrivals[1..])
  }

  function Completions(results: seq<Result>): nat {
    if results == [] then 0 else (if results[0].Complete? then 1 else 0) + Completions(results[1..])
  }

  ghost predicate InRange(source: seq<Byte>, chunkSize: nat, arrivals: seq<Arrival>)
    requires chunkSize > 0
  {
    forall k :: 0 <= k < |arrivals| ==> arrivals[k].index < ChunkCount(|source|, chunkSize)
  }

  lemma {:induction false} LandedGrows(source: seq<Byte>, chunkSize: nat, got: set<nat>, arrivals: seq<Arrival>)
    ensures got <= Landed(source, chunkSize, got, arrivals)
    decreases |arrivals|
  {
    hide ChunkFor;
    if arrivals == [] {
    } else {
      var a := arrivals[0];
      var lands := a.written >= |ChunkFor(source, chunkSize, a.index).data|;
      LandedGrows(source, chunkSize, if lands then got + {a.index} else got, arrivals[1..]);
    }
  }

  /** From any state the receiver keeps track, and reports completion once if and when it becomes full. */
  lemma {:induction false} RunTracks(rx: Rx, source: seq<Byte>, chunkSize: nat, digest: Digest, got: set<nat>,
                                     arrivals: seq<Arrival>)
    requires chunkSize > 0 && Tracks(rx, source, chunkSize, got) && InRange(source, chunkSize, arrivals)
    ensures var (last, results) := DeliverAll(rx, source, chunkSize, digest, arrivals);
            var all := Landed(source, chunkSize, got, arrivals);
            && Tracks(last, source, chunkSize, all)
            && HashMismatch !in results && BadChunk !in results
            && Completions(results) == if Full(source, chunkSize, all) && !Full(source, chunkSize, got) then 1 else 0
    decreases |arrivals|
  {
    hide Tracks, Full, Deliver, ChunkFor, ChunkCount;
    if arrivals == [] {
    } else {
      var a := arrivals[0];
      var c := ChunkFor(source, chunkSize, a.index);
      var meta := MetaOf(source, chunkSize, digest);
      TracksIsSized(rx, source, chunkSize, digest, got);
      DeliverKeepsSize(rx, meta, digest, c, a.written, true);
      DeliverSent(rx, source, chunkSize, digest, got, a.index, a.written);
      var (next, r) := Deliver(rx, meta, digest, c, a.written, true);
      var got' := if a.written >= |c.data| then got + {a.index} else got;
      if a.index in got {
        assert got + {a.index} == got;
      } else {
        NotFull(source, chunkSize, got, a.index);
      }
      RunTracks(next, source, chunkSize, digest, got', arrivals[1..]);
      var rest := DeliverAll(next, source, chunkSize, digest, arrivals[1..]).1;
      assert ([r] + rest)[1..] == rest;
      FullStays(source, chunkSize, got', arrivals[1..]);
    }
  }

  lemma {:induction false} TracksIsSized(rx: Rx, source: seq<Byte>, chunkSize: nat, digest: Digest, got: set<nat>)
    requires chunkSize > 0 && Tracks(rx, source, chunkSize, got)
    ensures Sized(rx, MetaOf(source, chunkSize, digest))
  {
  }

  lemma {:induction false} NotFull(source: seq<Byte>, chunkSize: nat, got: set<nat>, i: nat)
    requires chunkSize > 0 && i < ChunkCount(|source|, chunkSize) && i !in got
    ensures !Full(source, chunkSize, got)
  {
  }

  lemma {:induction false} FullStays(source: seq<Byte>, chunkSize: nat, got: set<nat>, arrivals: seq<Arrival>)
    requires chunkSize > 0
    ensures Full(source, chunkSize, got) ==> Full(source, chunkSize, Landed(source, chunkSize, got, arrivals))
  {
    hide ChunkCount, Landed;
    LandedGrows(source, chunkSize, got, arrivals);
  }

  /**
    A non-empty file whose chunks arrive in any order, with any repetitions and any failed writes:
    once every chunk has landed the destination is byte for byte the source and exactly one call
    has reported completion; before that none has.
   */
  lemma {:induction false} TransferIsFaithful(source: seq<Byte>, chunkSize: nat, digest: Digest, arrivals: seq<Arrival>)
    requires chunkSize > 0 && source != [] && InRange(source, chunkSize, arrivals)
    ensures var (last, results) := DeliverAll(Start(source, chunkSize), source, chunkSize, digest, arrivals);
            var all := Landed(source, chunkSize, {}, arrivals);
            && Tracks(last, source, chunkSize, all)
            && Completions(results) == (if Full(source, chunkSize, all) then 1 else 0)
            && (last.hashDone <==> Full(source, chunkSize, all))
            && (Full(source, chunkSize, all) ==> last.dest == source)
  {
    hide ChunkCount, DeliverAll, Landed, Start, Tracks, Full;
    StartTracks(source, chunkSize);
    LastChunk(|source|, chunkSize);
    NotFull(source, chunkSize, {}, 0);
    RunTracks(Start(source, chunkSize), source, chunkSize, digest, {}, arrivals);
    var last := DeliverAll(Start(source, chunkSize), source, chunkSize, digest, arrivals).0;
    var all := Landed(source, chunkSize, {}, arrivals);
    DoneMeansFull(last, source, chunkSize, all);
    if Full(source, chunkSize, all) {
      FullMeansEqual(last, source, chunkSize, all);
    }
  }

  lemma {:induction false} DoneMeansFull(rx: Rx, source: seq<Byte>, chunkSize: nat, got: set<nat>)
    requires chunkSize > 0 && Tracks(rx, source, chunkSize, got)
    ensures rx.hashDone <==> Full(source, chunkSize, got)
  {
    hide ChunkCount, Owner, ResumeMap.Has, ResumeMap.Count;
    ResumeMap.CountFull(rx.bits, ChunkCount(|source|, chunkSize));
  }

  /** An empty file has no chunks: whatever arrives is refused and completion is never reported. */
  lemma {:induction false} EmptyNeverCompletes(rx: Rx, chunkSize: nat, digest: Digest, call: Call)
    requires chunkSize > 0
    ensures Deliver(rx, MetaOf([], chunkSize, digest), digest, call.chunk, call.written, call.readable) == (rx, BadChunk)
  {
  }

  // ----- Chunks from anyone -----

  /** What the receiver answers when asked whether the transfer is complete. */
  predicate ReportsComplete(rx: Rx, meta: Meta)
    requires Sized(rx, meta)
  {
    rx.hashDone && forall i :: 0 <= i < meta.totalChunks ==> ResumeMap.Has(rx.bits, i)
  }

  /** The marks are counted right, and the digest is computed only if all chunks are there. */
  ghost predicate Consistent(rx: Rx, meta: Meta) {
    && Sized(rx, meta)
    && rx.received == ResumeMap.Count(rx.bits, meta.totalChunks)
    && (rx.hashDone ==> rx.received == meta.totalChunks)
  }

  lemma {:induction false} CompleteIsHashed(rx: Rx, meta: Meta)
    requires Consistent(rx, meta)
    ensures ReportsComplete(rx, meta) <==> rx.hashDone
    ensures rx.received == meta.totalChunks <==> forall i :: 0 <= i < meta.totalChunks ==> ResumeMap.Has(rx.bits, i)
  {
    ResumeMap.CountFull(rx.bits, meta.totalChunks);
  }

  /** Any chunk at all, whoever made it, how much of it the disk takes, and whether the file can be read back. */
  datatype Call = Call(chunk: Chunk, written: nat, readable: bool)

  /** Once all chunks are marked no call changes the destination, or anything else, again. */
  lemma {:induction false} CompleteIsFinal(rx: Rx, meta: Meta, digest: Digest, call: Call)
    requires Consistent(rx, meta) && rx.received == meta.totalChunks
    ensures Deliver(rx, meta, digest, call.chunk, call.written, call.readable) ==
            (rx, if Acceptable(meta, call.chunk) then Duplicate else BadChunk)
  {
    hide ResumeMap.Has, WriteAt;
    CompleteIsHashed(rx, meta);
  }

  /**
    Before that the call that marks the last chunk computes the digest and returns its outcome, unless the
    file cannot be read back.
   */
  lemma {:induction false} CallKeepsConsistent(rx: Rx, meta: Meta, digest: Digest, call: Call)
    requires Consistent(rx, meta) && rx.received != meta.totalChunks
    ensures var (after, r) := Deliver(rx, meta, digest, call.chunk, call.written, call.readable);
            && Consistent(after, meta)
            && (r.Complete? || r.HashMismatch? <==> after.hashDone)
            && (after.hashDone <==> after.received == meta.totalChunks && call.readable)
            && (after.hashDone ==> (r.Complete? <==> digest(after.dest) == meta.digest))
  {
    hide ResumeMap.Has, ResumeMap.Marked, ResumeMap.Count, WriteAt;
    var c := call.chunk;
    if Acceptable(meta, c) && !ResumeMap.Has(rx.bits, c.index) && call.written >= |c.data| {
      MarkedLength(rx.bits, c.index);
      ResumeMap.CountMarked(rx.bits, c.index, meta.totalChunks);
    }
  }

  /** The results of any calls one after the other, and the state after them. */
  function CallAll(rx: Rx, meta: Meta, digest: Digest, calls: seq<Call>): (Rx, seq<Result>)
    requires Sized(rx, meta)
    decreases |calls|
  {
    if calls == [] then (rx, [])
    else
      DeliverKeepsSize(rx, meta, digest, calls[0].chunk, calls[0].written, calls[0].readable);
      var (next, r) := Deliver(rx, meta, digest, calls[0].chunk, calls[0].written, calls[0].readable);
      var (last, rest) := CallAll(next, meta, digest, calls[1..]);
      (last, [r] + rest)
  }

  /** The outcomes of the digest among the results. */
  function Outcomes(results: seq<Result>): seq<Result> {
    if results == [] then []
    else (if results[0].Complete? || results[0].HashMismatch? then [results[0]] else []) + Outcomes(results[1..])
  }

  /** With all chunks marked the state is final and no digest is computed any more. */
  lemma {:induction false} AfterCompletion(rx: Rx, meta: Meta, digest: Digest, calls: seq<Call>)
    requires Consistent(rx, meta) && rx.received == meta.totalChunks
    ensures CallAll(rx, meta, digest, calls).0 == rx && Outcomes(CallAll(rx, meta, digest, calls).1) == []
    decreases |calls|
  {
    assert Sized(rx, meta);
    hide Deliver, Consistent;
    if calls == [] {
    } else {
      CompleteIsFinal(rx, meta, digest, calls[0]);
      AfterCompletion(rx, meta, digest, calls[1..]);
      var r := Deliver(rx, meta, digest, calls[0].chunk, calls[0].written, calls[0].readable).1;
      var rest := CallAll(rx, meta, digest, calls[1..]).1;
      assert ([r] + rest)[1..] == rest;
    }
  }

  lemma {:induction false} RunsOfCalls(rx: Rx, meta: Meta, digest: Digest, calls: seq<Call>)
    requires Consistent(rx, meta) && !rx.hashDone
    ensures var (last, results) := CallAll(rx, meta, digest, calls);
            && Consistent(last, meta)
            && Outcomes(results) ==
               if !last.hashDone then [] else if digest(last.dest) == meta.digest then [Complete] else [HashMismatch]
    decreases |calls|
  {
    assert Sized(rx, meta);
    hide Deliver, Consistent;
    if calls == [] {
    } else if rx.received == meta.totalChunks {
      AfterCompletion(rx, meta, digest, calls);
    } else {
      CallKeepsConsistent(rx, meta, digest, calls[0]);
      DeliverKeepsSize(rx, meta, digest, calls[0].chunk, calls[0].written, calls[0].readable);
      var (next, r) := Deliver(rx, meta, digest, calls[0].chunk, calls[0].written, calls[0].readable);
      if next.hashDone {
        AfterCompletion(next, meta, digest, calls[1..]);
      } else {
        RunsOfCalls(next, meta, digest, calls[1..]);
      }
      var rest := CallAll(next, meta, digest, calls[1..]).1;
      assert ([r] + rest)[1..] == rest;
    }
  }

  lemma {:induction false} OutcomesAre(results: seq<Result>)
    ensures HashMismatch in results <==> HashMismatch in Outcomes(results)
    ensures Complete in results <==> Complete in Outcomes(results)
  {
    if results == [] {
    } else {
      OutcomesAre(results[1..]);
      assert results == [results[0]] + results[1..];
    }
  }

  /**
    Any description, any chunks, from the sender or not, any failed writes and any failed reading back:
    when the receiver reports completion, the destination has the announced digest if and only if no
    call has returned a mismatch; and then exactly one call has returned completion.
   */
  lemma {:induction false} CompletionIsGenuineIff(rx: Rx, meta: Meta, digest: Digest, calls: seq<Call>)
    requires Consistent(rx, meta) && !rx.hashDone
    ensures var (last, results) := CallAll(rx, meta, digest, calls);
            && Sized(last, meta)
            && (ReportsComplete(last, meta) <==> Complete in results || HashMismatch in results)
            && (ReportsComplete(last, meta) ==> (digest(last.dest) == meta.digest <==> HashMismatch !in results))
            && (ReportsComplete(last, meta) ==> (digest(last.dest) == meta.digest <==> Complete in results))
  {
    hide CallAll, ReportsComplete;
    RunsOfCalls(rx, meta, digest, calls);
    var (last, results) := CallAll(rx, meta, digest, calls);
    CompleteIsHashed(last, meta);
    OutcomesAre(results);
  }

  /** If the file cannot be read back when the last chunk is marked, completion is never reported. */
  lemma {:induction false} FailedReadBackIsFinal(rx: Rx, meta: Meta, digest: Digest, call: Call, more: seq<Call>)
    requires Consistent(rx, meta) && rx.received != meta.totalChunks
    ensures var after := Deliver(rx, meta, digest, call.chunk, call.written, call.readable).0;
            after.received == meta.totalChunks && !call.readable ==>
              Consistent(after, meta) && CallAll(after, meta, digest, more).0 == after && !ReportsComplete(after, meta)
  {
    hide Deliver, CallAll;
    CallKeepsConsistent(rx, meta, digest, call);
    var after := Deliver(rx, meta, digest, call.chunk, call.written, call.readable).0;
    if after.received == meta.totalChunks && !call.readable {
      AfterCompletion(after, meta, digest, more);
    }
  }
}
