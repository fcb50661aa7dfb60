/** The two ends of a file transfer as the program keeps them. */
module FileEndpoints {
  import opened Common
  import opened Files
  import opened FileTransfer
  import ResumeMap

  const CHUNK_MIN: nat := 1024
  const CHUNK_MAX: nat := 65536

  // ----- Writing with partial writes -----

  /** How many bytes a series of partial writes puts down before one of them fails. */
  function Taken(writes: seq<nat>, len: nat): nat {
    if len == 0 || writes == [] || writes[0] == 0 then 0
    else
      var n := Min(writes[0], len);
      n + Taken(writes[1..], len - n)
  }

  lemma {:induction false} TakenStep(writes: seq<nat>, k: nat, len: nat)
    requires k <= |writes| && len > 0
    ensures Taken(writes[k..], len) ==
            if k == |writes| || writes[k] == 0 then 0
            else Min(writes[k], len) + Taken(writes[k + 1..], len - Min(writes[k], len))
  {
    if k < |writes| {
      assert writes[k..][1..] == writes[k + 1..];
    }
  }

  lemma {:induction false} NothingLeft(writes: seq<nat>)
    ensures Taken(writes, 0) == 0
  {
  }

  lemma {:induction false} WriteNothing(file: seq<Byte>, off: nat, data: seq<Byte>)
    ensures WriteAt(file, off, data[..0]) == file
  {
  }

  lemma {:induction false} WriteMore(file: seq<Byte>, off: nat, data: seq<Byte>, done: nat, n: nat)
    requires done + n <= |data|
    ensures WriteAt(WriteAt(file, off, data[..done]), off + done, data[done..done + n]) ==
            WriteAt(file, off, data[..done + n])
  {
    hide WriteAt;
    WriteTwice(file, off, data[..done], data[done..done + n]);
    assert data[..done] + data[done..done + n] == data[..done + n];
  }

  /** The byte of a file at a place, zero past its end. */
  function ByteAt(file: seq<Byte>, p: nat): Byte {
    if p < |file| then file[p] else 0
  }

  lemma {:induction false} WrittenSize(file: seq<Byte>, off: nat, data: seq<Byte>)
    requires data != []
    ensures |WriteAt(file, off, data)| == if |file| < off + |data| then off + |data| else |file|
  {
  }

  /** What a write leaves at each place. */
  lemma {:induction false} WrittenAt(file: seq<Byte>, off: nat, data: seq<Byte>, p: nat)
    requires data != []
    ensures ByteAt(WriteAt(file, off, data), p) == if off <= p < off + |data| then data[p - off] else ByteAt(file, p)
  {
  }

  lemma {:induction false} SameBytes(a: seq<Byte>, b: seq<Byte>)
    requires |a| == |b| && forall p: nat :: ByteAt(a, p) == ByteAt(b, p)
    ensures a == b
  {
    forall p | 0 <= p < |a|
      ensures a[p] == b[p]
    {
      assert ByteAt(a, p) == ByteAt(b, p);
    }
  }

  lemma {:induction false} WriteBoth(file: seq<Byte>, off: nat, a: seq<Byte>, b: seq<Byte>)
    requires a != [] && b != []
    ensures WriteAt(WriteAt(file, off, a), off + |a|, b) == WriteAt(file, off, a + b)
  {
    hide WriteAt, ByteAt;
    var half := WriteAt(file, off, a);
    var once, twice := WriteAt(file, off, a + b), WriteAt(half, off + |a|, b);
    forall p: nat
      ensures ByteAt(once, p) == ByteAt(twice, p)
    {
      WrittenAt(file, off, a + b, p);
      WrittenAt(half, off + |a|, b, p);
      WrittenAt(file, off, a, p);
    }
    WrittenSize(file, off, a);
    WrittenSize(file, off, a + b);
    WrittenSize(half, off + |a|, b);
    SameBytes(once, twice);
  }

  /** Two adjacent writes are one. */
  lemma {:induction false} WriteTwice(file: seq<Byte>, off: nat, a: seq<Byte>, b: seq<Byte>)
    ensures WriteAt(WriteAt(file, off, a), off + |a|, b) == WriteAt(file, off, a + b)
  {
    if a == [] {
      assert a + b == b;
    } else if b == [] {
      assert a + b == a;
    } else {
      WriteBoth(file, off, a, b);
    }
  }

  class FileReceiver {
    const digest: Digest
    var metaSet: bool
    var meta: Meta
    var resume: ResumeMap.Map?
    var dest: seq<Byte>
    var hashDone: bool

    ghost predicate Valid()
      reads this, resume, if resume != null then {resume.bits} else {}
    {
      && (resume != null ==> resume.Valid())
      && (metaSet ==> resume != null && resume.total == meta.totalChunks)
    }

    ghost function View(): Rx
      requires Valid() && metaSet
      reads this, resume, if resume != null then {resume.bits} else {}
    {
      Rx(dest, resume.bits[..], resume.received, hashDone)
    }

    constructor (digest: Digest)
      ensures Valid() && !metaSet && resume == null && this.digest == digest
    {
      this.digest := digest;
      metaSet := false;
      meta := Meta(0, 0, 0, []);
      resume := null;
      dest := [];
      hashDone := false;
    }

    /**
      The first well-formed description whose destination can be opened starts the transfer; a later
      one is refused. A failed attempt leaves the next one as good a chance.
     */
    method OnMeta(m: Option<Meta>, opens: bool) returns (r: Result)
      requires Valid()
      modifies this
      ensures Valid()
      ensures r == if old(metaSet) || m.None? then BadMeta else if !opens then IoError else Accepted
      ensures old(metaSet) ==> metaSet && meta == old(meta) && resume == old(resume)
                               && dest == old(dest) && hashDone == old(hashDone)
      ensures !old(metaSet) ==> (metaSet <==> r.Accepted?)
      ensures r.Accepted? ==> meta == m.value && fresh(resume) && fresh(resume.bits)
      ensures r.Accepted? ==> View().dest == Zeros(meta.totalSize) && View().received == 0 && !View().hashDone
      ensures r.Accepted? ==> forall i :: 0 <= i < meta.totalChunks ==> !ResumeMap.Has(View().bits, i)
      ensures r.Accepted? ==> Consistent(View(), meta)
    {
      if metaSet || m.None? {
        return BadMeta;
      }
      meta := m.value;
      resume := new ResumeMap.Map(meta.totalChunks);
      if !opens {
        return IoError;
      }
      dest := Zeros(meta.totalSize);
      hashDone := false;
      metaSet := true;
      return Accepted;
    }

    /** Puts a chunk's data down with as many writes as it takes. */
    method WriteChunk(off: nat, data: seq<Byte>, writes: seq<nat>) returns (written: nat)
      modifies this`dest
      ensures written == Taken(writes, |data|) <= |data| && dest == WriteAt(old(dest), off, data[..written])
    {
      hide WriteAt, Taken;
      written := 0;
      var k := 0;
      WriteNothing(dest, off, data);
      assert writes[0..] == writes;
      while written < |data|
        invariant written <= |data| && k <= |writes|
        invariant written + Taken(writes[k..], |data| - written) == Taken(writes, |data|)
        invariant dest == WriteAt(old(dest), off, data[..written])
        decreases |writes| - k
      {
        TakenStep(writes, k, |data| - written);
        if k == |writes| || writes[k] == 0 {
          return;
        }
        var n := Min(writes[k], |data| - written);
        WriteMore(old(dest), off, data, written, n);
        dest := WriteAt(dest, off + written, data[written..written + n]);
        written := written + n;
        k := k + 1;
      }
      NothingLeft(writes[k..]);
    }

    /** Whether a chunk fits the transfer. */
    method Screen(chunk: Chunk) returns (ok: bool)
      ensures ok <==> Acceptable(meta, chunk)
    {
      if chunk.index >= meta.totalChunks || |chunk.data| > meta.chunkSize {
        return false;
      }
      if chunk.index + 1 < meta.totalChunks && |chunk.data| != meta.chunkSize {
        return false;
      }
      return chunk.crcOk;
    }

    /** Writes and marks a chunk that fits and is not there yet; the last one has the digest checked. */
    method StoreChunk(chunk: Chunk, writes: seq<nat>, readable: bool) returns (r: Result)
      requires Valid() && metaSet && Acceptable(meta, chunk) && !ResumeMap.Has(View().bits, chunk.index)
      modifies this`dest, this`hashDone, resume, resume.bits
      ensures Valid()
      ensures (View(), r) == Deliver(old(View()), meta, digest, chunk, Taken(writes, |chunk.data|), readable)
    {
      hide WriteAt, ResumeMap.Has, ResumeMap.Marked, ResumeMap.Count, Taken;
      ghost var before := View();
      var written := WriteChunk(chunk.index * meta.chunkSize, chunk.data, writes);
      if written < |chunk.data| {
        return IoError;
      }
      assert chunk.data[..written] == chunk.data;
      var marked := resume.Set(chunk.index);
      assert resume.bits[..] == ResumeMap.Marked(before.bits, chunk.index);
      if resume.received != resume.total {
        return Accepted;
      }
      if hashDone {
        return Complete;
      }
      if !readable {
        return IoError;
      }
      hashDone := true;
      return if digest(dest) == meta.digest then Complete else HashMismatch;
    }

    /** One chunk frame, with the sizes the disk takes at each write and whether the file can be read back. */
    method OnChunk(c: Option<Chunk>, writes: seq<nat>, readable: bool) returns (r: Result)
      requires Valid()
      modifies this`dest, this`hashDone, resume, if resume != null then {resume.bits} else {}
      ensures Valid()
      ensures !metaSet ==> r == BadMeta && dest == old(dest) && hashDone == old(hashDone)
      ensures metaSet && c.None? ==> r == BadChunk && View() == old(View())
      ensures metaSet && c.Some? ==>
                (View(), r) == Deliver(old(View()), meta, digest, c.value, Taken(writes, |c.value.data|), readable)
    {
      hide WriteAt, ResumeMap.Has, ResumeMap.Marked, ResumeMap.Count, Taken;
      if !metaSet {
        return BadMeta;
      }
      if c.None? {
        return BadChunk;
      }
      var ok := Screen(c.value);
      if !ok {
        return BadChunk;
      }
      if resume.Test(c.value.index) {
        return Duplicate;
      }
      r := StoreChunk(c.value, writes, readable);
    }

    /** Completion looks only at the marks and at whether the digest was computed, not at its outcome. */
    method IsComplete() returns (done: bool)
      requires Valid()
      ensures done <==> metaSet && ReportsComplete(View(), meta)
    {
      if !metaSet {
        return false;
      }
      hide ResumeMap.Has;
      var full := resume.Complete();
      assert View().bits == resume.bits[..];
      return full && hashDone;
    }

    /** The first chunks still to come; none before a description has arrived. */
    method MissingChunks(max: nat) returns (missing: seq<nat>)
      requires Valid()
      ensures resume == null ==> missing == []
      ensures resume != null ==>
                var all := ResumeMap.Missing(resume.bits[..], 0, resume.total);
                |all| == resume.total - resume.received && missing == if |all| > max then all[..max] else all
    {
      if resume == null {
        return [];
      }
      var found, more := resume.ListMissing(max);
      return found;
    }
  }

  class FileSender {
    const source: seq<Byte>
    const meta: Meta
    var next: nat

    ghost predicate Valid()
      reads this
    {
      && meta.chunkSize > 0 && meta.totalChunks == ChunkCount(|source|, meta.chunkSize)
      && next <= meta.totalChunks
    }

    constructor (source: seq<Byte>, chunkSize: nat, digest: Digest)
      requires chunkSize > 0
      ensures Valid() && this.source == source && meta == MetaOf(source, chunkSize, digest) && next == 0
    {
      this.source := source;
      meta := MetaOf(source, chunkSize, digest);
      next := 0;
    }

    /**
      Sends what a read at the next chunk's place gives, if the throttle lets it and the transport takes
      it; else nothing moves. A read that gives all it was asked for gives exactly the chunk.
     */
    method SendNext(granted: bool, got: nat, taken: bool) returns (c: Option<Chunk>)
      requires Valid()
      modifies this
      ensures Valid()
      ensures c.Some? <==> old(next) < meta.totalChunks && granted && got > 0 && taken
      ensures c.Some? ==> c.value.index == old(next) && c.value.crcOk && next == old(next) + 1
      ensures c.Some? ==>
                var whole := ChunkFor(source, meta.chunkSize, old(next)).data;
                c.value.data == if got < |whole| then whole[..got] else whole
      ensures c.None? ==> next == old(next)
    {
      if next >= meta.totalChunks || !granted {
        return None;
      }
      var data := Window(source, next * meta.chunkSize, meta.chunkSize);
      SentIsAcceptable(source, meta.chunkSize, next, x => x);
      if got < |data| {
        data := data[..got];
      }
      if |data| == 0 || !taken {
        return None;
      }
      c := Some(Chunk(next, data, true));
      next := next + 1;
    }

    /** Moves to any chunk, or just past the last one. */
    method Seek(i: nat) returns (ok: bool)
      requires Valid()
      modifies this
      ensures Valid() && (ok <==> i <= meta.totalChunks) && next == if ok then i else old(next)
    {
      if i > meta.totalChunks {
        return false;
      }
      next := i;
      return true;
    }
  }

  const NAME_MAX: nat := 256

  predicate NameByteOk(b: Byte) {
    b >= 0x20 && b != 0x2F && b != 0x5C
  }

  /** Not empty, not too long, no slashes or control bytes, and no two dots in front. */
  predicate NameOk(name: seq<Byte>) {
    0 < |name| <= NAME_MAX && !([0x2E, 0x2E] <= name) && forall i :: 0 <= i < |name| ==> NameByteOk(name[i])
  }

  method CheckName(name: seq<Byte>) returns (ok: bool)
    ensures ok <==> NameOk(name)
  {
    if |name| == 0 || |name| > NAME_MAX {
      return false;
    }
    for i := 0 to |name|
      invariant forall j :: 0 <= j < i ==> NameByteOk(name[j])
      invariant i > 0 ==> !([0x2E, 0x2E] <= name)
    {
      if name[i] == 0x2F || name[i] == 0x5C || name[i] == 0 {
        return false;
      }
      if i == 0 && name[i] == 0x2E && |name| >= 2 && name[1] == 0x2E {
        return false;
      }
      if name[i] < 0x20 {
        return false;
      }
    }
    return true;
  }

  /**
    Opening a file for sending refuses chunk sizes out of bounds, files that cannot be read, bad names,
    and files of so many chunks that the count does not fit 32 bits.
   */
  method OpenSender(source: seq<Byte>, readable: bool, name: seq<Byte>, chunkSize: nat, digest: Digest)
    returns (s: FileSender?)
    ensures s != null <==> CHUNK_MIN <= chunkSize <= CHUNK_MAX && readable && NameOk(name)
                           && ChunkCount(|source|, chunkSize) < U32_LIMIT
    ensures s != null ==> fresh(s) && s.Valid() && s.source == source && s.next == 0
    ensures s != null ==> s.meta == MetaOf(source, chunkSize, digest)
  {
    if chunkSize < CHUNK_MIN || chunkSize > CHUNK_MAX || !readable {
      return null;
    }
    var total := ChunkCount(|source|, chunkSize) % U32_LIMIT;
    var nameOk := CheckName(name);
    if !nameOk || total != ChunkCount(|source|, chunkSize) {
      return null;
    }
    s := new FileSender(source, chunkSize, digest);
  }

  /** A chunk with a good checksum but the wrong byte: the mismatch is returned, and completion reported. */
  method ForgedChunk(digest: Digest, expected: seq<Byte>, forged: Byte) returns (r: Result, done: bool)
    requires digest([forged]) != expected
    ensures r == HashMismatch && done
  {
    hide Deliver, Taken, ReportsComplete;
    var receiver := new FileReceiver(digest);
    var accepted := receiver.OnMeta(Some(Meta(1, CHUNK_MIN, 1, expected)), true);
    ForgedDelivery(receiver.View(), digest, expected, forged);
    r := receiver.OnChunk(Some(Chunk(0, [forged], true)), [1], true);
    done := receiver.IsComplete();
  }

  lemma {:induction false} ForgedDelivery(rx: Rx, digest: Digest, expected: seq<Byte>, forged: Byte)
    requires digest([forged]) != expected && Consistent(rx, Meta(1, CHUNK_MIN, 1, expected))
    requires rx.dest == [0] && rx.received == 0 && !ResumeMap.Has(rx.bits, 0)
    ensures Taken([1], 1) == 1
    ensures var meta := Meta(1, CHUNK_MIN, 1, expected);
            var (after, r) := Deliver(rx, meta, digest, Chunk(0, [forged], true), 1, true);
            r == HashMismatch && Sized(after, meta) && ReportsComplete(after, meta)
  {
    var meta := Meta(1, CHUNK_MIN, 1, expected);
    assert [1][1..] == [];
    assert WriteAt([0], 0, [forged]) == [forged];
    var call := Call(Chunk(0, [forged], true), 1, true);
    CallKeepsConsistent(rx, meta, digest, call);
    CompleteIsHashed(Deliver(rx, meta, digest, call.chunk, call.written, call.readable).0, meta);
  }
}
