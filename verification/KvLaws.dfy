/** What an open store and a replayed file say, compared with the map the logged operations denote. */
module KvLaws {
  import opened Common
  import opened Files
  import opened Logs
  import opened KvLog
  import Varint
  import Crc

  type Contents = map<Key, seq<Byte>>

  // ----- One step -----

  /** A slot leads to its value: from the record's start if the key is in `recent`, else directly. */
  ghost predicate Leads(file: seq<Byte>, slot: Slot, key: Key, value: seq<Byte>, isRecent: bool) {
    && slot.vlen == |value|
    && if isRecent then Put(key, value).Fits() && BytesAt(file, slot.offset, Record(Put(key, value)))
       else BytesAt(file, slot.offset, value)
  }

  /** The index knows exactly the keys of `m`, and its slots lead to their values. */
  ghost predicate Agrees(s: State, m: Contents, recent: Contents) {
    && (forall key :: Has(s.index, key) <==> key in m)
    && (forall key :: key in recent ==> key in m)
    && (forall key :: key in m ==> Leads(s.file, s.index[key], key, m[key], key in recent))
  }

  lemma LeadsStays(file: seq<Byte>, more: seq<Byte>, slot: Slot, key: Key, value: seq<Byte>, isRecent: bool)
    requires Leads(file, slot, key, value, isRecent)
    ensures Leads(file + more, slot, key, value, isRecent)
  {
    BytesStay(file, more, slot.offset, if isRecent then Record(Put(key, value)) else value);
  }

  lemma StepAgrees(s: State, m: Contents, recent: Contents, op: Op)
    requires op.Fits() && Agrees(s, m, recent)
    ensures Agrees(Step(s, op), Apply(m, op), Apply(recent, op))
  {
    var s', m' := Step(s, op), Apply(m, op);
    Appended(s.file, Record(op));
    forall key | key in m'
      ensures Leads(s'.file, s'.index[key], key, m'[key], key in Apply(recent, op))
    {
      if key == op.key {
        assert op == Put(key, m'[key]);
      } else {
        LeadsStays(s.file, Record(op), s.index[key], key, m[key], key in recent);
      }
    }
  }

  lemma {:induction false} RunAgrees(s: State, m: Contents, recent: Contents, ops: seq<Op>)
    requires (forall op :: op in ops ==> op.Fits()) && Agrees(s, m, recent)
    ensures Agrees(Run(s, ops), Fold(m, ops), Fold(recent, ops))
    decreases |ops|
  {
    if ops == [] {
    } else {
      StepAgrees(s, m, recent, ops[0]);
      RunAgrees(Step(s, ops[0]), Apply(m, ops[0]), Apply(recent, ops[0]), ops[1..]);
    }
  }

  // ----- Replay -----

  /** The operations replay gets to see: those before the first key that is too long. */
  function Replayable(ops: seq<Op>): seq<Op> {
    if ops == [] || |ops[0].key| > MAX_REPLAYED_KEY then [] else [ops[0]] + Replayable(ops[1..])
  }

  lemma {:induction false} NoteLeads(file: seq<Byte>, op: Op, pos: nat)
    requires op.Put? && BytesAt(file, pos, Record(op))
    ensures var item := ItemOf(op, pos); Leads(file, Slot(item.offset, item.vlen, false), op.key, op.value, false)
  {
    hide Record, Header, BytesAt;
    RecordLayout(file, pos, op);
  }

  lemma {:induction false} NoteAgrees(file: seq<Byte>, index: Index, m: Contents, op: Op, pos: nat)
    requires Agrees(State(file, index), m, map[]) && BytesAt(file, pos, Record(op))
    ensures Agrees(State(file, Note(index, ItemOf(op, pos))), Apply(m, op), map[])
  {
    hide Leads, Record, Header, BytesAt;
    if op.Put? {
      NoteLeads(file, op, pos);
    }
  }

  lemma {:induction false} ReplayCons(pos: nat, ops: seq<Op>, items: seq<Item>, seen: seq<Op>)
    requires ops != [] && |ops[0].key| <= MAX_REPLAYED_KEY
    requires items == ItemsOf(ops, pos) && seen == Replayable(ops)
    ensures items != [] && items[0] == ItemOf(ops[0], pos)
    ensures items[1..] == ItemsOf(ops[1..], pos + |Record(ops[0])|)
    ensures seen != [] && seen[0] == ops[0] && seen[1..] == Replayable(ops[1..])
  {
  }

  lemma {:induction false} ReplayAgrees(file: seq<Byte>, pos: nat, ops: seq<Op>, index: Index, m: Contents,
                                        items: seq<Item>, seen: seq<Op>)
    requires LogAt(file, Record, ops, pos) && Agrees(State(file, index), m, map[])
    requires items == ItemsOf(ops, pos) && seen == Replayable(ops)
    ensures Agrees(State(file, NoteAll(index, items)), Fold(m, seen), map[])
    decreases |ops|
  {
    if ops == [] || |ops[0].key| > MAX_REPLAYED_KEY {
    } else {
      var op, next := ops[0], pos + |Record(ops[0])|;
      ReplayCons(pos, ops, items, seen);
      NoteAgrees(file, index, m, op, pos);
      ReplayAgrees(file, next, ops[1..], Note(index, items[0]), Apply(m, seen[0]), items[1..], seen[1..]);
    }
  }

  /** Opening a log finds exactly the live keys and, for each, the place of its last value's bytes. */
  lemma {:induction false} ReopenedAgrees(ops: seq<Op>)
    requires forall op :: op in ops ==> op.Fits()
    ensures Agrees(Reopened(Log(Record, ops)), Fold(map[], Replayable(ops)), map[])
  {
    var file := Log(Record, ops);
    assert file[0..] == file;
    LogIsThere(file, Record, ops, 0);
    ScanLog(file, ops);
    ReplayAgrees(file, 0, ops, map[], map[], ItemsOf(ops, 0), Replayable(ops));
  }

  // ----- Whole sessions -----

  lemma {:induction false} FoldAppend(m: Contents, a: seq<Op>, b: seq<Op>)
    ensures Fold(m, a + b) == Fold(Fold(m, a), b)
    decreases |a|
  {
    if a == [] {
      assert a + b == b;
    } else {
      assert (a + b)[1..] == a[1..] + b;
      FoldAppend(Apply(m, a[0]), a[1..], b);
    }
  }

  lemma {:induction false} RunAppends(s: State, ops: seq<Op>)
    ensures Run(s, ops).file == s.file + Log(Record, ops)
    decreases |ops|
  {
    if ops == [] {
    } else {
      RunAppends(Step(s, ops[0]), ops[1..]);
      Regroup(s.file, Record(ops[0]), Log(Record, ops[1..]));
    }
  }

  lemma AgreesOnSize(s: State, m: Contents, recent: Contents)
    requires Agrees(s, m, recent)
    ensures |LiveKeys(s.index)| == |m|
  {
    assert LiveKeys(s.index) == m.Keys;
  }

  /**
    A store opened on any log and used for any session: it holds exactly the keys that the replayed
    and the new operations leave, counts them right, and the file is the log of all of them.
   */
  lemma {:induction false} SessionPresence(before: seq<Op>, ops: seq<Op>)
    requires forall op :: op in before + ops ==> op.Fits()
    ensures var s := Run(Reopened(Log(Record, before)), ops);
            var m := Fold(map[], Replayable(before) + ops);
            && s.file == Log(Record, before + ops)
            && (forall key :: Has(s.index, key) <==> key in m)
            && |LiveKeys(s.index)| == |m|
  {
    ReopenedAgrees(before);
    var s0 := Reopened(Log(Record, before));
    var m0 := Fold(map[], Replayable(before));
    RunAgrees(s0, m0, map[], ops);
    FoldAppend(map[], Replayable(before), ops);
    AgreesOnSize(Run(s0, ops), Fold(m0, ops), Fold(map[], ops));
    RunAppends(s0, ops);
    LogAppend(Record, before, ops);
  }

  /** Every state of an open store, with the contents it stands for and the part of them put in the session. */
  lemma {:induction false} SessionAgrees(before: seq<Op>, ops: seq<Op>)
    requires forall op :: op in before + ops ==> op.Fits()
    ensures Agrees(Run(Reopened(Log(Record, before)), ops), Fold(map[], Replayable(before) + ops), Fold(map[], ops))
  {
    hide Agrees, Fold, Run, Reopened, Replayable, Log;
    ReopenedAgrees(before);
    RunAgrees(Reopened(Log(Record, before)), Fold(map[], Replayable(before)), map[], ops);
    FoldAppend(map[], Replayable(before), ops);
  }

  /**
    Every key put in this session and not deleted since reads back as its last value: the length is
    reported, exactly the value's bytes are stored, and so never more than the buffer holds.
   */
  lemma {:induction false} SessionValues(before: seq<Op>, ops: seq<Op>, key: Key, capacity: nat)
    requires forall op :: op in before + ops ==> op.Fits()
    requires key in Fold(map[], ops)
    ensures var m := Fold(map[], Replayable(before) + ops);
            && key in m
            && Get(Run(Reopened(Log(Record, before)), ops), key, capacity) ==
               if capacity < |m[key]| then Got(TooSmall, Some(|m[key]|), []) else Got(Ok, Some(|m[key]|), m[key])
  {
    hide Fold, Run, Reopened, Replayable, Log, ReadAt;
    SessionAgrees(before, ops);
    var s, m := Run(Reopened(Log(Record, before)), ops), Fold(map[], Replayable(before) + ops);
    assert Leads(s.file, s.index[key], key, m[key], true);
    ReadRecord(s.file, s.index[key].offset, Put(key, m[key]));
  }

  lemma {:induction false} ShortKeysAreReplayable(ops: seq<Op>)
    requires forall op :: op in ops ==> |op.key| <= MAX_REPLAYED_KEY
    ensures Replayable(ops) == ops
  {
    if ops == [] {
    } else {
      ShortKeysAreReplayable(ops[1..]);
    }
  }

  /** With keys short enough to be replayed, reopening the file changes neither presence nor size. */
  lemma {:induction false} ReopenKeepsPresence(before: seq<Op>, ops: seq<Op>)
    requires forall op :: op in before + ops ==> op.Fits() && |op.key| <= MAX_REPLAYED_KEY
    ensures var s := Run(Reopened(Log(Record, before)), ops);
            var t := Reopened(s.file);
            && (forall key :: Has(t.index, key) <==> Has(s.index, key))
            && |LiveKeys(t.index)| == |LiveKeys(s.index)|
  {
    SessionPresence(before, ops);
    SessionPresence(before + ops, []);
    assert before + ops + [] == before + ops;
    ShortKeysAreReplayable(before);
    ShortKeysAreReplayable(before + ops);
  }

  // ----- Values across a reopen -----

  /** The caller's buffer after a call, when it is at least as large as what was stored. */
  function After(buffer: seq<Byte>, stored: seq<Byte>): seq<Byte>
    requires |stored| <= |buffer|
  {
    stored + buffer[|stored|..]
  }

  /** The caller can tell the value from the reported length and the bytes stored. */
  predicate Delivers(g: Got, value: seq<Byte>) {
    g.code.Ok? && g.length == Some(|value|) && value <= g.stored
  }

  /** That is: whatever the buffer held before, its first bytes are now the value. */
  lemma {:induction false} DeliveredIntoAnyBuffer(stored: seq<Byte>, value: seq<Byte>, capacity: nat)
    requires |stored| <= capacity && |value| <= capacity
    ensures value <= stored <==> forall buffer: seq<Byte> :: |buffer| == capacity ==> value <= After(buffer, stored)
  {
    if value <= stored {
      forall buffer: seq<Byte> | |buffer| == capacity
        ensures value <= After(buffer, stored)
      {
        assert After(buffer, stored)[..|value|] == stored[..|value|];
      }
    } else {
      var other: Byte := if |stored| < |value| && value[|stored|] == 0 then 1 else 0;
      var buffer: seq<Byte> := seq(capacity, _ => other);
      if |value| <= |stored| {
        assert After(buffer, stored)[..|value|] == stored[..|value|];
      } else {
        assert After(buffer, stored)[|stored|] == other;
      }
    }
  }

  /** What the bytes at a place, read as a record header, lead to. */
  function LedTo(file: seq<Byte>, at: nat): Option<Lengths> {
    var l := ReadLengths(Window(file, at, HEADER_WINDOW));
    if l.Some? && at + l.value.size + 1 + Signed(l.value.klen) >= 0 then l else None
  }

  /** The bytes of the file from there on, as many as the header's length says or as there are. */
  function LedBytes(file: seq<Byte>, at: nat): seq<Byte>
    requires LedTo(file, at).Some?
  {
    var l := LedTo(file, at).value;
    Window(file, at + l.size + 1 + Signed(l.klen), l.vlen)
  }

  /** Read as a record header, the bytes at this place point at bytes that are all there and start with the value. */
  predicate PointsAtCopy(file: seq<Byte>, at: nat, value: seq<Byte>) {
    LedTo(file, at).Some? && |LedBytes(file, at)| == LedTo(file, at).value.vlen && value <= LedBytes(file, at)
  }

  lemma {:induction false} ReadWhereLed(file: seq<Byte>, at: nat)
    ensures ReadAt(file, at) ==
            if LedTo(file, at).None? then Fetched(false, [])
            else Fetched(|LedBytes(file, at)| == LedTo(file, at).value.vlen, LedBytes(file, at))
  {
    hide ReadLengths, Window;
  }

  /**
    A live key that has not been put in this session has its slot at the value itself, which `get`
    takes for the record's start. The caller gets the value exactly when the value's own first bytes,
    read as lengths, point at a copy of it; and more is stored than the buffer holds exactly when
    they point at more bytes than that.
   */
  lemma {:induction false} ReopenedValueIff(before: seq<Op>, ops: seq<Op>, key: Key, capacity: nat)
    requires forall op :: op in before + ops ==> op.Fits()
    requires key in Fold(map[], Replayable(before) + ops) && key !in Fold(map[], ops)
    ensures var s := Run(Reopened(Log(Record, before)), ops);
            var value := Fold(map[], Replayable(before) + ops)[key];
            && key in s.index && BytesAt(s.file, s.index[key].offset, value)
            && var at, g := s.index[key].offset, Get(s, key, capacity);
               && (Delivers(g, value) <==> |value| <= capacity && PointsAtCopy(s.file, at, value))
               && (|g.stored| > capacity <==>
                     |value| <= capacity && LedTo(s.file, at).Some? && |LedBytes(s.file, at)| > capacity)
  {
    hide Fold, Run, Reopened, Replayable, Log, ReadAt, LedTo, LedBytes, BytesAt;
    SessionAgrees(before, ops);
    var s := Run(Reopened(Log(Record, before)), ops);
    ReadWhereLed(s.file, s.index[key].offset);
  }

  lemma {:induction false} LengthsAgree(value: seq<Byte>, w: seq<Byte>)
    requires ReadLengths(value).Some? && ReadLengths(value).value.size <= |w|
    requires forall k :: 0 <= k < ReadLengths(value).value.size ==> value[k] == w[k]
    ensures ReadLengths(w) == ReadLengths(value) && ReadLengths(value).value.size <= 2 * Varint.MAX_LEN
  {
    var k := Varint.Decode(value, 0).value.1;
    Varint.DecodeAgrees(value, w, 0, 0, 0);
    Varint.DecodeAgrees(value, w, k, 0, 0);
  }

  /** The header window at a value's place shows the lengths its own first bytes hold. */
  lemma {:induction false} LengthsOfValue(file: seq<Byte>, at: nat, value: seq<Byte>)
    requires BytesAt(file, at, value) && ReadLengths(value).Some?
    ensures ReadLengths(Window(file, at, HEADER_WINDOW)) == ReadLengths(value)
  {
    LengthsAgree(value, value);
    BytesAtSlice(file, at, value);
    hide ReadLengths;
    var w, size := Window(file, at, HEADER_WINDOW), ReadLengths(value).value.size;
    forall k | 0 <= k < size
      ensures k < |w| && value[k] == w[k]
    {
      assert file[at..at + |value|][k] == file[at + k];
    }
    LengthsAgree(value, w);
  }

  /**
    What a caller can tell from the value alone: if its own first bytes hold two complete lengths, the
    second smaller than the value, then it is never delivered after a reopen.
   */
  lemma {:induction false} ShortLengthIsNeverDelivered(before: seq<Op>, ops: seq<Op>, key: Key, capacity: nat)
    requires forall op :: op in before + ops ==> op.Fits()
    requires key in Fold(map[], Replayable(before) + ops) && key !in Fold(map[], ops)
    requires var value := Fold(map[], Replayable(before) + ops)[key];
             ReadLengths(value).Some? && ReadLengths(value).value.vlen < |value|
    ensures var value := Fold(map[], Replayable(before) + ops)[key];
            !Delivers(Get(Run(Reopened(Log(Record, before)), ops), key, capacity), value)
  {
    hide Fold, Run, Reopened, Replayable, Log, Get, ReadLengths, BytesAt, Delivers;
    ReopenedValueIff(before, ops, key, capacity);
    var s := Run(Reopened(Log(Record, before)), ops);
    LengthsOfValue(s.file, s.index[key].offset, Fold(map[], Replayable(before) + ops)[key]);
  }

  /** Two zero bytes read as two zero lengths, so nothing is stored. */
  lemma {:induction false} ZeroLengths(file: seq<Byte>, offset: nat, value: seq<Byte>)
    requires BytesAt(file, offset, value) && [0, 0] <= value
    ensures ReadAt(file, offset) == Fetched(true, [])
  {
    var two := Varint.Encode(0) + Varint.Encode(0);
    assert value == two + value[2..];
    hide ReadLengths, BytesAt;
    BytesAtParts(file, offset, two, value[2..]);
    WindowShows(file, offset, two, HEADER_WINDOW);
    LengthsRead(Window(file, offset, HEADER_WINDOW), 0, 0);
  }

  /** For such a value the call succeeds and reports the full length, but leaves the buffer as it was. */
  lemma {:induction false} ReopenedZeroValue(before: seq<Op>, ops: seq<Op>, key: Key, capacity: nat)
    requires forall op :: op in before + ops ==> op.Fits()
    requires key in Fold(map[], Replayable(before) + ops) && key !in Fold(map[], ops)
    requires var value := Fold(map[], Replayable(before) + ops)[key]; [0, 0] <= value && |value| <= capacity
    ensures var value := Fold(map[], Replayable(before) + ops)[key];
            Get(Run(Reopened(Log(Record, before)), ops), key, capacity) == Got(Ok, Some(|value|), [])
  {
    hide Fold, Run, Reopened, Replayable, Log, ReadAt, BytesAt;
    SessionAgrees(before, ops);
    var s := Run(Reopened(Log(Record, before)), ops);
    ZeroLengths(s.file, s.index[key].offset, Fold(map[], Replayable(before) + ops)[key]);
  }

  // ----- A value that finds a copy of itself -----

  /** Two keys with the same two bytes as value. Read as lengths, 7 and 3 lead from one to the other. */
  function Twins(): seq<Op> {
    [Put([1], [7, 3]), Put([2], [7, 3])]
  }

  lemma {:induction false} TwinRecord(key: Byte, value: seq<Byte>)
    requires |value| == 2
    ensures var r := Record(Put([key], value));
            |r| == 10 && r[..6] == [1, 2, 0, key, value[0], value[1]] && |Header(Put([key], value))| == 3
  {
    var op := Put([key], value);
    assert Varint.Encode(1) == [1] && Varint.Encode(2) == [2];
    assert Header(op) == [1, 2, 0];
    var crc := Crc.Checksum(Header(op) + op.key + op.Value());
    assert |crc| == 4;
  }

  lemma {:induction false} TwinsIndex()
    ensures var s := Reopened(Log(Record, Twins()));
            s.file == Log(Record, Twins()) && [1] in s.index && s.index[[1]] == Slot(4, 2, false)
  {
    var ops := Twins();
    hide Record, Header, Opens, Scan;
    TwinRecord(1, [7, 3]);
    TwinRecord(2, [7, 3]);
    ScanLog(Log(Record, ops), ops);
    var second := ItemOf(ops[1], 10);
    assert ops[1..] == [ops[1]] && ops[1..][1..] == [];
    assert ItemsOf(ops[1..], 10) == [second];
    assert ItemsOf(ops, 0) == [ItemOf(ops[0], 0), second];
    var first := Note(map[], ItemOf(ops[0], 0));
    assert NoteAll(first, [second]) == Note(first, second);
    assert NoteAll(map[], [ItemOf(ops[0], 0), second]) == NoteAll(first, [second]);
    assert [1] != [2 as Byte];
  }

  /**
    The caller of `get` for the first key then sees the right length and the right bytes, and three
    bytes are stored, even into a buffer of two.
   */
  lemma {:induction false} TwinIsDelivered(capacity: nat)
    requires capacity >= 2
    ensures var g := Get(Reopened(Log(Record, Twins())), [1], capacity);
            Delivers(g, [7, 3]) && |g.stored| == 3
  {
    hide Record, Reopened;
    TwinsIndex();
    TwinRecord(1, [7, 3]);
    TwinRecord(2, [7, 3]);
    var ops := Twins();
    var a, b := Record(ops[0]), Record(ops[1]);
    var file := Log(Record, ops);
    assert ops[1..] == [ops[1]] && ops[1..][1..] == [];
    assert Log(Record, ops[1..]) == b;
    assert file == a + b;
    var w := Window(file, 4, HEADER_WINDOW);
    assert w[0] == a[..6][4] == 7 && w[1] == a[..6][5] == 3;
    assert ReadLengths(w) == Some(Lengths(7, 3, 2));
    assert Window(file, 14, 3) == b[4..7];
    assert b[4] == b[..6][4] == 7 && b[5] == b[..6][5] == 3;
    assert b[4..7] == [7, 3, b[6]];
  }
}
