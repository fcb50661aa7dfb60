/** The key-value store over its file and its chained hash table. The hash function may be any. */
module KvStore {
  import opened Common
  import opened Files
  import opened Chains
  import opened KvLog
  import opened Logs
  import Varint
  import Crc

  const BUCKETS: nat := 4096

  function Alive(s: KvLog.Slot): nat {
    if s.tomb then 0 else 1
  }

  class Store {
    const hash: Key -> nat
    var file: seq<Byte>
    var buckets: seq<Chain<Key, KvLog.Slot>>
    /** The table as a map. */
    ghost var index: Index

    ghost predicate Valid()
      reads this
    {
      && |buckets| == BUCKETS
      && (forall key :: Find(key) == if key in index then Some(index[key]) else None)
      && Total(Alive, buckets) == |LiveKeys(index)|
    }

    ghost function View(): KvLog.State
      reads this
    {
      KvLog.State(file, index)
    }

    function Find(key: Key): Option<KvLog.Slot>
      requires |buckets| == BUCKETS
      reads this
    {
      LookupIn(hash, buckets, key)
    }

    /** Writes back one slot, adding the key if it is new. */
    method Save(key: Key, slot: KvLog.Slot)
      requires Valid()
      modifies this`buckets, this`index
      ensures Valid() && index == old(index)[key := slot]
    {
      StoreInTotal(Alive, hash, buckets, key, slot);
      LiveAfter(index, key, slot);
      buckets := Upsert(hash, buckets, key, slot);
      index := index[key := slot];
    }

    /** Reads the file from the start and rebuilds the index; returns for every file whose replay ends. */
    constructor (contents: seq<Byte>, hash: Key -> nat)
      requires Opens(contents)
      ensures Valid() && View() == Reopened(contents)
    {
      this.hash := hash;
      file := contents;
      buckets := seq(BUCKETS, _ => []);
      index := map[];
      new;
      TotalEmpty(Alive, buckets);
      Replay();
    }

    method Replay()
      requires Valid() && index == map[] && Opens(file)
      modifies this`buckets, this`index
      ensures Valid() && View() == Reopened(file)
    {
      hide WalkFor, NoteAll, ReadItem, Rebuilds;
      var pos := 0;
      ghost var turns: nat := |file| + 1;
      ReplayStart(file);
      while true
        invariant Valid() && Rebuilds(file, pos, turns, index, Reopened(file).index)
        decreases turns
      {
        var f := ReadRecord(pos);
        ReplayStep(file, pos, turns, index, Reopened(file).index);
        if f.None? {
          break;
        }
        NoteItem(f.value.0);
        if f.value.1.None? {
          break;
        }
        pos := f.value.1.value;
        turns := turns - 1;
      }
    }

    method NoteItem(item: Item)
      requires Valid()
      modifies this`buckets, this`index
      ensures Valid() && index == Note(old(index), item)
    {
      var e := Find(item.key);
      if item.Tomb? {
        if e.Some? {
          Save(item.key, e.value.(tomb := true));
        }
      } else {
        Save(item.key, KvLog.Slot(item.offset, item.vlen, false));
      }
    }

    /** Parses the record at a position. */
    method ReadRecord(pos: nat) returns (f: Option<(Item, Option<nat>)>)
      ensures f == ReadItem(file, pos)
    {
      var w := Window(file, pos, HEADER_WINDOW);
      if |w| == 0 {
        return None;
      }
      var l := ParseLengths(w);
      if l.None? || l.value.size + 1 > |w| {
        return None;
      }
      var Lengths(klen, vlen, size) := l.value;
      var flags := w[size];
      var keyAt := pos + size + 1;
      if klen > MAX_REPLAYED_KEY {
        return None;
      }
      var key := Window(file, keyAt, klen);
      if |key| != klen {
        return None;
      }
      if flags % 2 == 1 {
        return Some((Tomb(key), Some(keyAt + klen + 4)));
      }
      var valueEnd := keyAt + klen + Signed(vlen);
      return Some((Live(key, keyAt + klen, vlen), if valueEnd < 0 then None else Some(valueEnd + 4)));
    }

    /** Appends one record and returns where it starts. The table for the checksum is made on first use. */
    method WriteRecord(op: Op, sums: Crc.Crc32c) returns (offset: nat)
      requires op.WordSized() && sums.Valid()
      modifies this`file, sums`ready, sums.table
      ensures sums.Valid()
      ensures file == old(file) + Record(op) && offset == |old(file)|
    {
      hide Crc.Checksum, KvLog.Header;
      var header := MakeHeader(op);
      offset := |file|;
      var tail := SumInParts(header, op.key, op.Value(), sums);
      file := file + header + op.key + op.Value() + tail;
      assert file == old(file) + Record(op);
    }

    method Put(key: Key, value: seq<Byte>, sums: Crc.Crc32c)
      requires Valid() && Op.Put(key, value).WordSized() && sums.Valid()
      modifies this, sums`ready, sums.table
      ensures Valid() && sums.Valid() && View() == Step(old(View()), Op.Put(key, value))
    {
      var offset := WriteRecord(Op.Put(key, value), sums);
      Save(key, KvLog.Slot(offset, |value|, false));
    }

    method Delete(key: Key, sums: Crc.Crc32c)
      requires Valid() && Op.Del(key).WordSized() && sums.Valid()
      modifies this, sums`ready, sums.table
      ensures Valid() && sums.Valid() && View() == Step(old(View()), Op.Del(key))
    {
      var offset := WriteRecord(Op.Del(key), sums);
      var e := Find(key);
      if e.Some? {
        Save(key, e.value.(tomb := true, vlen := 0));
      }
    }

    /** Returns the code, the stored length and the bytes put in the caller's buffer. */
    method Get(key: Key, capacity: nat) returns (r: Got)
      requires Valid()
      ensures r == KvLog.Get(View(), key, capacity)
    {
      var e := Find(key);
      if e.None? || e.value.tomb {
        return Got(NotFound, None, []);
      }
      var vlen := e.value.vlen;
      if capacity < vlen {
        return Got(TooSmall, Some(vlen), []);
      }
      var w := Window(file, e.value.offset, HEADER_WINDOW);
      var l := ParseLengths(w);
      if l.None? {
        return Got(Failed, Some(vlen), []);
      }
      var pos := e.value.offset + l.value.size + 1 + Signed(l.value.klen);
      if pos < 0 {
        return Got(Failed, Some(vlen), []);
      }
      var bytes := Window(file, pos, l.value.vlen);
      return Got(if |bytes| != l.value.vlen then Failed else Ok, Some(vlen), bytes);
    }

    method Has(key: Key) returns (r: bool)
      requires Valid()
      ensures r <==> KvLog.Has(index, key)
    {
      var e := Find(key);
      return e.Some? && !e.value.tomb;
    }

    /** Counts the entries that are not tombstones. */
    method Size() returns (live: nat)
      requires Valid()
      ensures live == |LiveKeys(index)|
    {
      live := 0;
      for b := 0 to BUCKETS
        invariant live + Total(Alive, buckets[b..]) == Total(Alive, buckets)
      {
        var n := ChainSize(buckets[b]);
        live := live + n;
        assert buckets[b..][1..] == buckets[b + 1..];
      }
    }
  }

  /** Replay from a place with this index so far ends in so many turns, and with the goal as index. */
  ghost predicate Rebuilds(file: seq<Byte>, pos: nat, turns: nat, index: Index, goal: Index) {
    WalkFor(Items(file), pos, turns).Some? && NoteAll(index, WalkFor(Items(file), pos, turns).value) == goal
  }

  lemma {:induction false} ReplayStart(file: seq<Byte>)
    requires Opens(file)
    ensures Rebuilds(file, 0, |file| + 1, map[], Reopened(file).index)
  {
  }

  lemma {:induction false} ReplayStep(file: seq<Byte>, pos: nat, turns: nat, index: Index, goal: Index)
    requires Rebuilds(file, pos, turns, index, goal)
    ensures turns > 0
    ensures var r := ReadItem(file, pos);
            if r.None? then index == goal
            else if r.value.1.None? then Note(index, r.value.0) == goal
            else Rebuilds(file, r.value.1.value, turns - 1, Note(index, r.value.0), goal)
  {
    hide ReadItem;
    var r := ReadItem(file, pos);
    assert Items(file)(pos) == r;
    if r.Some? && r.value.1.Some? {
      var rest := WalkFor(Items(file), r.value.1.value, turns - 1).value;
      assert ([r.value.0] + rest)[1..] == rest;
    } else if r.Some? {
      assert NoteAll(index, [r.value.0]) == NoteAll(Note(index, r.value.0), []);
    }
  }

  /** Both lengths and the flag, in a buffer that holds the longest header. */
  method MakeHeader(op: Op) returns (header: seq<Byte>)
    requires op.WordSized()
    ensures header == KvLog.Header(op)
  {
    hide Varint.Encode;
    var buffer := new Byte[HEADER_WINDOW];
    var n := Varint.AppendU64(|op.key|, buffer, 0);
    assert buffer[..n] == Varint.Encode(|op.key|);
    n := Varint.AppendU64(|op.Value()|, buffer, n);
    ghost var lengths := buffer[..n];
    buffer[n] := if op.Put? then 0 else 1;
    assert buffer[..n] == lengths;
    header := buffer[..n + 1];
  }

  /** The checksum of a record, fed piece by piece; an empty value is not fed. */
  method SumInParts(header: seq<Byte>, key: Key, value: seq<Byte>, sums: Crc.Crc32c) returns (tail: seq<Byte>)
    requires sums.Valid()
    modifies sums`ready, sums.table
    ensures sums.Valid() && tail == Crc.Checksum(header + key + value)
  {
    var crc := sums.Update(Crc.Ones(), header);
    crc := sums.Update(crc, key);
    if value != [] {
      crc := sums.Update(crc, value);
    }
    Crc.ChecksumInParts(header, key, value);
    tail := Crc.Finish(crc);
  }

  method ParseLengths(w: seq<Byte>) returns (l: Option<Lengths>)
    ensures l == ReadLengths(w)
  {
    var k := Varint.DecodeU64(w, 0);
    if k.None? {
      return None;
    }
    var v := Varint.DecodeU64(w, k.value.1);
    if v.None? {
      return None;
    }
    return Some(Lengths(k.value.0, v.value.0, k.value.1 + v.value.1));
  }

  method ChainSize(chain: Chain<Key, KvLog.Slot>) returns (live: nat)
    ensures live == Sum(Alive, chain)
  {
    live := 0;
    for k := 0 to |chain|
      invariant live + Sum(Alive, chain[k..]) == Sum(Alive, chain)
    {
      if !chain[k].value.tomb {
        live := live + 1;
      }
      assert chain[k..][1..] == chain[k + 1..];
    }
  }

  /** Storing a slot changes the number of live keys by the difference in liveness. */
  lemma LiveAfter(index: Index, key: Key, slot: KvLog.Slot)
    ensures |LiveKeys(index[key := slot])| ==
            |LiveKeys(index)| - At(Alive, if key in index then Some(index[key]) else None) + Alive(slot)
  {
    var rest := LiveKeys(index) - {key};
    assert LiveKeys(index) == if KvLog.Has(index, key) then rest + {key} else rest;
    assert LiveKeys(index[key := slot]) == if slot.tomb then rest else rest + {key};
  }
}
