/**
  The key-value store on values: an append-only file of records and an index of slots into it. The
  steps of the store, what replaying a file rebuilds, and how both relate to the plain map that the
  operations denote.
 */
module KvLog {
  import opened Common
  import opened Files
  import opened Logs
  import Varint
  import Crc

  type Key = seq<Byte>

  const MAX_REPLAYED_KEY: nat := 4096
  const HEADER_WINDOW: nat := 2 * Varint.MAX_LEN + 1

  datatype Op = Put(key: Key, value: seq<Byte>) | Del(key: Key)
  {
    function Value(): seq<Byte> {
      if Put? then value else []
    }

    /** Lengths are machine words. */
    predicate WordSized() {
      |key| < U64_LIMIT && |Value()| < U64_LIMIT
    }

    /** Positions in a file are signed words. */
    predicate Fits() {
      |key| < LONG_LIMIT && |Value()| < LONG_LIMIT
    }
  }

  // ----- What the operations mean -----

  function Apply(m: map<Key, seq<Byte>>, op: Op): map<Key, seq<Byte>> {
    if op.Put? then m[op.key := op.value] else m - {op.key}
  }

  /** The contents after all operations, oldest first. */
  function Fold(m: map<Key, seq<Byte>>, ops: seq<Op>): map<Key, seq<Byte>>
    decreases |ops|
  {
    if ops == [] then m else Fold(Apply(m, ops[0]), ops[1..])
  }

  // ----- The file -----

  function Header(op: Op): seq<Byte> {
    Varint.Encode(|op.key|) + Varint.Encode(|op.Value()|) + [if op.Put? then 0 else 1]
  }

  function Record(op: Op): seq<Byte> {
    Header(op) + Body(op, Crc.Checksum(Header(op) + op.key + op.Value()))
  }

  function Body(op: Op, crc: seq<Byte>): seq<Byte> {
    op.key + (op.Value() + crc)
  }

  /** Key length, value length and the number of bytes the two lengths take. */
  datatype Lengths = Lengths(klen: nat, vlen: nat, size: nat)

  function ReadLengths(w: seq<Byte>): (r: Option<Lengths>)
    ensures r.Some? ==> r.value.size <= |w|
  {
    var k := Varint.Decode(w, 0);
    if k.None? then None
    else
      var v := Varint.Decode(w, k.value.1);
      if v.None? then None else Some(Lengths(k.value.0, v.value.0, k.value.1 + v.value.1))
  }

  // ----- The index and the steps of an open store -----

  datatype Slot = Slot(offset: nat, vlen: nat, tomb: bool)

  type Index = map<Key, Slot>

  datatype State = State(file: seq<Byte>, index: Index)

  predicate Has(index: Index, key: Key) {
    key in index && !index[key].tomb
  }

  function LiveKeys(index: Index): set<Key> {
    set key | key in index && !index[key].tomb
  }

  function Buried(index: Index, key: Key, vlen: nat): Index {
    if key in index then index[key := index[key].(tomb := true, vlen := vlen)] else index
  }

  /** One operation of an open store: a put remembers where its record starts. */
  function Step(s: State, op: Op): State {
    State(s.file + Record(op),
          if op.Put? then s.index[op.key := Slot(|s.file|, |op.value|, false)] else Buried(s.index, op.key, 0))
  }

  function Run(s: State, ops: seq<Op>): State
    decreases |ops|
  {
    if ops == [] then s else Run(Step(s, ops[0]), ops[1..])
  }

  /** Whether a read came to its end, and the bytes it stored. */
  datatype Fetched = Fetched(complete: bool, bytes: seq<Byte>)

  /** The value read for a record that is taken to start at the offset. */
  function ReadAt(file: seq<Byte>, offset: nat): Fetched {
    var l := ReadLengths(Window(file, offset, HEADER_WINDOW));
    if l.None? then Fetched(false, [])
    else
      var pos := offset + l.value.size + 1 + Signed(l.value.klen);
      if pos < 0 then Fetched(false, [])
      else
        var bytes := Window(file, pos, l.value.vlen);
        Fetched(|bytes| == l.value.vlen, bytes)
  }

  datatype Code = Ok | NotFound | TooSmall | Failed

  /** The return code, the reported length if there is one, and the bytes stored in the caller's buffer. */
  datatype Got = Got(code: Code, length: Option<nat>, stored: seq<Byte>)

  /** A lookup for a buffer of this capacity; it compares the capacity with the index, not with the file. */
  function Get(s: State, key: Key, capacity: nat): Got {
    if !Has(s.index, key) then Got(NotFound, None, [])
    else
      var slot := s.index[key];
      if capacity < slot.vlen then Got(TooSmall, Some(slot.vlen), [])
      else
        var f := ReadAt(s.file, slot.offset);
        Got(if f.complete then Ok else Failed, Some(slot.vlen), f.bytes)
  }

  // ----- Replaying a file -----

  datatype Item = Live(key: Key, offset: nat, vlen: nat) | Tomb(key: Key)

  /**
    The record at a position, if it parses, and where replay goes on. The value is skipped by a
    signed distance, so a length of 2^63 or more goes backwards; before the start of the file the
    seek fails and replay ends with this record.
   */
  function ReadItem(file: seq<Byte>, pos: nat): (r: Option<(Item, Option<nat>)>)
    ensures r.Some? ==> pos < |file|
  {
    var w := Window(file, pos, HEADER_WINDOW);
    var l := ReadLengths(w);
    if l.None? || l.value.size >= |w| || l.value.klen > MAX_REPLAYED_KEY then None
    else
      var keyAt := pos + l.value.size + 1;
      var key := Window(file, keyAt, l.value.klen);
      if |key| != l.value.klen then None
      else if w[l.value.size] % 2 == 1 then Some((Tomb(key), Some(keyAt + |key| + 4)))
      else
        Some((Live(key, keyAt + |key|, l.value.vlen), SkipValue(keyAt + |key|, l.value.vlen)))
  }

  /** Past a value and the four checksum bytes. */
  function SkipValue(at: nat, vlen: nat): Option<nat> {
    if at + Signed(vlen) < 0 then None else Some(at + Signed(vlen) + 4)
  }

  function Items(file: seq<Byte>): Reader<Item> {
    (pos: nat) => ReadItem(file, pos)
  }

  /** Replay of the file comes to an end within one turn more than the file has bytes. */
  predicate Opens(file: seq<Byte>) {
    WalkFor(Items(file), 0, |file| + 1).Some?
  }

  /** The records replay finds; it stops at the first thing that does not parse. */
  function Scan(file: seq<Byte>): seq<Item> {
    var w := WalkFor(Items(file), 0, |file| + 1);
    if w.Some? then w.value else []
  }

  function Note(index: Index, item: Item): Index {
    if item.Live? then index[item.key := Slot(item.offset, item.vlen, false)]
    else Buried(index, item.key, if item.key in index then index[item.key].vlen else 0)
  }

  function NoteAll(index: Index, items: seq<Item>): Index
    decreases |items|
  {
    if items == [] then index else NoteAll(Note(index, items[0]), items[1..])
  }

  /** The store right after opening a file. */
  function Reopened(file: seq<Byte>): State {
    State(file, NoteAll(map[], Scan(file)))
  }

  // ----- Records read back -----

  lemma {:induction false} BodyLayout(file: seq<Byte>, at: nat, op: Op, crc: seq<Byte>)
    requires BytesAt(file, at, Body(op, crc))
    ensures BytesAt(file, at, op.key) && BytesAt(file, at + |op.key|, op.Value())
    ensures |Body(op, crc)| == |op.key| + |op.Value()| + |crc|
  {
    BytesAtParts(file, at, op.key, op.Value() + crc);
    BytesAtParts(file, at + |op.key|, op.Value(), crc);
  }

  /** Where the header, the key and the value of a record lie. */
  lemma {:induction false} RecordLayout(file: seq<Byte>, at: nat, op: Op)
    requires BytesAt(file, at, Record(op))
    ensures BytesAt(file, at, Header(op))
    ensures BytesAt(file, at + |Header(op)|, op.key)
    ensures BytesAt(file, at + |Header(op)| + |op.key|, op.Value())
    ensures |Record(op)| == |Header(op)| + |op.key| + |op.Value()| + 4
  {
    var crc := Crc.Checksum(Header(op) + op.key + op.Value());
    BytesAtParts(file, at, Header(op), Body(op, crc));
    BodyLayout(file, at + |Header(op)|, op, crc);
  }

  lemma {:induction false} LengthsRead(w: seq<Byte>, k: nat, v: nat)
    requires k < U64_LIMIT && v < U64_LIMIT && BytesAt(w, 0, Varint.Encode(k) + Varint.Encode(v))
    ensures ReadLengths(w) == Some(Lengths(k, v, |Varint.Encode(k)| + |Varint.Encode(v)|))
  {
    BytesAtParts(w, 0, Varint.Encode(k), Varint.Encode(v));
    Varint.RoundTrip(k, w, 0);
    Varint.RoundTrip(v, w, |Varint.Encode(k)|);
  }

  /** The header window always shows both lengths and the flag byte, whatever follows the header. */
  lemma {:induction false} LengthsOfHeader(w: seq<Byte>, op: Op)
    requires op.Fits() && BytesAt(w, 0, Header(op))
    ensures ReadLengths(w) == Some(Lengths(|op.key|, |op.Value()|, |Header(op)| - 1))
    ensures |w| >= |Header(op)| > 0 && w[|Header(op)| - 1] == if op.Put? then 0 else 1
  {
    var lengths := Varint.Encode(|op.key|) + Varint.Encode(|op.Value()|);
    BytesAtParts(w, 0, lengths, [if op.Put? then 0 else 1]);
    LengthsRead(w, |op.key|, |op.Value()|);
  }

  lemma HeaderFitsWindow(op: Op)
    requires op.WordSized()
    ensures 3 <= |Header(op)| <= HEADER_WINDOW
  {
    Varint.EncodedSize(|op.key|);
    Varint.EncodedSize(|op.Value()|);
  }

  lemma {:induction false} HeaderInWindow(file: seq<Byte>, offset: nat, op: Op)
    requires op.Fits() && BytesAt(file, offset, Record(op))
    ensures BytesAt(Window(file, offset, HEADER_WINDOW), 0, Header(op))
  {
    RecordLayout(file, offset, op);
    HeaderFitsWindow(op);
    WindowShows(file, offset, Header(op), HEADER_WINDOW);
  }

  /** What reads at a record's start show. */
  lemma {:induction false} RecordShown(file: seq<Byte>, at: nat, op: Op)
    requires op.Fits() && BytesAt(file, at, Record(op))
    ensures var w, h := Window(file, at, HEADER_WINDOW), |Header(op)|;
            && ReadLengths(w) == Some(Lengths(|op.key|, |op.Value()|, h - 1))
            && |w| >= h > 0 && w[h - 1] == (if op.Put? then 0 else 1)
            && Window(file, at + h, |op.key|) == op.key
            && Window(file, at + h + |op.key|, |op.Value()|) == op.Value()
            && |Record(op)| == h + |op.key| + |op.Value()| + 4
  {
    hide ReadLengths, Record, Header, BytesAt, Window;
    RecordLayout(file, at, op);
    WindowIs(file, at + |Header(op)|, op.key);
    WindowIs(file, at + |Header(op)| + |op.key|, op.Value());
    HeaderInWindow(file, at, op);
    LengthsOfHeader(Window(file, at, HEADER_WINDOW), op);
  }

  /** Reading at a record's start lands exactly on its value. */
  lemma {:induction false} ReadRecord(file: seq<Byte>, offset: nat, op: Op)
    requires op.Fits() && BytesAt(file, offset, Record(op))
    ensures ReadAt(file, offset) == Fetched(true, op.Value())
  {
    hide ReadLengths, Record, Header, BytesAt;
    RecordShown(file, offset, op);
  }

  // ----- Replay rebuilds the items of the log -----

  function ItemOf(op: Op, pos: nat): Item {
    if op.Put? then Live(op.key, pos + |Header(op)| + |op.key|, |op.value|) else Tomb(op.key)
  }

  predicate TooLong(op: Op) {
    |op.key| > MAX_REPLAYED_KEY
  }

  predicate Fitting(op: Op) {
    op.Fits()
  }

  /** The items of a log that starts at a position, up to the first key too long to be replayed. */
  function ItemsOf(ops: seq<Op>, pos: nat): seq<Item> {
    Views(Record, TooLong, ItemOf, ops, pos)
  }

  lemma ReadItemWhen(file: seq<Byte>, pos: nat, l: Lengths, flag: Byte, key: Key)
    requires var w := Window(file, pos, HEADER_WINDOW);
             ReadLengths(w) == Some(l) && l.size < |w| && w[l.size] == flag
    requires Window(file, pos + l.size + 1, l.klen) == key && |key| == l.klen
    ensures ReadItem(file, pos) ==
            if l.klen > MAX_REPLAYED_KEY then None
            else
              var keyEnd := pos + l.size + 1 + l.klen;
              if flag % 2 == 1 then Some((Tomb(key), Some(keyEnd + 4)))
              else Some((Live(key, keyEnd, l.vlen), SkipValue(keyEnd, l.vlen)))
  {
  }

  /** A record of the log is read as one item, and the next one starts right after it. */
  lemma {:induction false} ReadItemOf(file: seq<Byte>, pos: nat, op: Op)
    requires op.Fits() && BytesAt(file, pos, Record(op))
    ensures Items(file)(pos) ==
            if TooLong(op) then None else Some((ItemOf(op, pos), Some(pos + |Record(op)|)))
    ensures Record(op) != []
  {
    hide ReadItem, ReadLengths, Record, Header, BytesAt, Window, Varint.Encode;
    RecordShown(file, pos, op);
    var l := Lengths(|op.key|, |op.Value()|, |Header(op)| - 1);
    ReadItemWhen(file, pos, l, if op.Put? then 0 else 1, op.key);
  }

  lemma ItemReadsAt(file: seq<Byte>, op: Op, pos: nat)
    requires op.Fits()
    ensures ReadsAt(Items(file), file, Record, TooLong, ItemOf, op, pos)
  {
    hide ReadItem, Record;
    if BytesAt(file, pos, Record(op)) {
      ReadItemOf(file, pos, op);
    }
  }

  lemma {:induction false} ItemsWithin(file: seq<Byte>)
    ensures Within(Items(file), |file|)
  {
    hide ReadItem;
  }

  /** Every log opens, and replaying it finds its records at their true offsets. */
  lemma {:induction false} ScanLog(file: seq<Byte>, ops: seq<Op>)
    requires file == Log(Record, ops) && forall op :: op in ops ==> op.Fits()
    ensures Opens(file) && Scan(file) == ItemsOf(ops, 0)
  {
    hide ReadItem, Record;
    forall op, pos: nat | Fitting(op)
      ensures ReadsAt(Items(file), file, Record, TooLong, ItemOf, op, pos)
    {
      ItemReadsAt(file, op, pos);
    }
    assert file[0..] == file;
    ItemsWithin(file);
    WalkLog(Items(file), file, Record, TooLong, ItemOf, Fitting, ops, 0, |file| + 1);
  }

  // ----- When opening comes to an end -----

  /** Replay of a file ends at all if and only if it ends within one turn more than there are bytes. */
  lemma {:induction false} OpensIffReplayEnds(file: seq<Byte>)
    ensures Opens(file) <==> Ends(Items(file), 0)
  {
    ItemsWithin(file);
    EndsSoon(Items(file), 0, |file|);
  }

  /** Every file opens in which no place reads as a record with a value of 2^63 bytes or more. */
  lemma {:induction false} ShortLengthsOpen(file: seq<Byte>)
    requires forall pos: nat :: var r := Items(file)(pos); r.Some? && r.value.0.Live? ==> r.value.0.vlen < LONG_LIMIT
    ensures Opens(file)
  {
    forall p: nat
      ensures var r := Items(file)(p);
              r.Some? ==> p < |file| && (r.value.1.Some? ==> p < r.value.1.value)
    {
      ItemGoesOn(file, p);
    }
    ForwardEnds(Items(file), 0, |file|, |file| + 1);
  }

  lemma {:induction false} ItemGoesOn(file: seq<Byte>, p: nat)
    requires var r := Items(file)(p); r.Some? && r.value.0.Live? ==> r.value.0.vlen < LONG_LIMIT
    ensures var r := Items(file)(p); r.Some? ==> p < |file| && (r.value.1.Some? ==> p < r.value.1.value)
  {
  }

  /** Twelve bytes: no key, a value length sixteen short of 2^64, and the flag of a put. */
  function BackwardHeader(): seq<Byte> {
    Varint.Encode(0) + Varint.Encode(U64_LIMIT - 16) + [0]
  }

  lemma {:induction false} BackwardLengths()
    ensures |Varint.Encode(0)| == 1 && |Varint.Encode(U64_LIMIT - 16)| == 10 && |BackwardHeader()| == 12
  {
    Varint.EncodedSize(U64_LIMIT - 16);
    Varint.EncodedSpan(U64_LIMIT - 16);
  }

  lemma {:induction false} BackwardShown(file: seq<Byte>, at: nat)
    requires BytesAt(file, at, BackwardHeader()) && |file| == at + 12
    ensures var w := Window(file, at, HEADER_WINDOW);
            |w| == 12 && ReadLengths(w) == Some(Lengths(0, U64_LIMIT - 16, 11)) && w[11] == 0
  {
    var lengths := Varint.Encode(0) + Varint.Encode(U64_LIMIT - 16);
    hide ReadLengths, BytesAt, Varint.Encode;
    BackwardLengths();
    WindowShows(file, at, BackwardHeader(), HEADER_WINDOW);
    var w := Window(file, at, HEADER_WINDOW);
    BytesAtParts(w, 0, lengths, [0]);
    LengthsRead(w, 0, U64_LIMIT - 16);
    BytesAtSlice(w, 11, [0]);
  }

  /** Read at the end of a file from place 4 on, that header sends replay back to its own start. */
  lemma {:induction false} BackwardLoops(file: seq<Byte>, at: nat)
    requires BytesAt(file, at, BackwardHeader()) && |file| == at + 12 && at >= 4
    ensures Items(file)(at) == Some((Live([], at + 12, U64_LIMIT - 16), Some(at)))
  {
    hide ReadItem, ReadLengths, BytesAt, BackwardHeader;
    BackwardShown(file, at);
    ReadItemWhen(file, at, Lengths(0, U64_LIMIT - 16, 11), 0, []);
  }

  lemma {:induction false} LoopFromStart(read: Reader<Item>, at: nat)
    requires read(0).Some? && read(0).value.1 == Some(at) && read(at).Some? && read(at).value.1 == Some(at)
    ensures !Ends(read, 0)
  {
    forall turns: nat
      ensures WalkFor(read, 0, turns).None?
    {
      if turns > 0 {
        LoopNeverEnds(read, at, turns - 1);
      }
    }
  }

  lemma {:induction false} BehindRecord(file: seq<Byte>, op: Op, tail: seq<Byte>)
    requires file == Record(op) + tail
    ensures BytesAt(file, 0, Record(op)) && BytesAt(file, |Record(op)|, tail)
  {
    hide Record;
    assert [] + file == file;
    Appended([], file);
    BytesAtParts(file, 0, Record(op), tail);
  }

  /** A file with one good record and then that header: opening it never comes to an end. */
  lemma {:induction false} BackwardFileNeverOpens(op: Op)
    requires op.Fits() && |op.key| <= MAX_REPLAYED_KEY
    ensures !Ends(Items(Record(op) + BackwardHeader()), 0)
  {
    hide ReadItem, ReadLengths, BytesAt, BackwardHeader, Record, Header;
    var file := Record(op) + BackwardHeader();
    BackwardLengths();
    BehindRecord(file, op, BackwardHeader());
    ReadItemOf(file, 0, op);
    RecordLayout(file, 0, op);
    BackwardLoops(file, |Record(op)|);
    LoopFromStart(Items(file), |Record(op)|);
  }
}
