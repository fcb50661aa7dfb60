/** The append-only event log: numbered records, recovered numbering on open, and iteration. */
module EventLog {
  import opened Common
  import opened Files
  import opened Logs
  import Varint
  import Crc

  const MAX_PAYLOAD: nat := 0x10_0000
  const OPEN_WINDOW: nat := 64
  const ITERATE_WINDOW: nat := 4 * Varint.MAX_LEN

  datatype Event = Event(number: nat, timestamp: nat, kind: nat, payload: seq<Byte>)
  {
    /** The numbers written in front of the payload. */
    function Numbers(): seq<nat> {
      [number, timestamp, kind, |payload|]
    }

    predicate Fits() {
      number < U64_LIMIT && timestamp < U64_LIMIT && kind < U64_LIMIT && |payload| <= MAX_PAYLOAD
    }
  }

  // ----- The file -----

  function EncodeAll(numbers: seq<nat>): seq<Byte> {
    if numbers == [] then [] else Varint.Encode(numbers[0]) + EncodeAll(numbers[1..])
  }

  function Header(e: Event): seq<Byte> {
    EncodeAll(e.Numbers())
  }

  /** An event in a file with the four bytes that stand in the checksum's place. */
  datatype Stored = Stored(event: Event, crc: seq<Byte>)
  {
    predicate Fits() {
      event.Fits() && |crc| == 4
    }
  }

  function Bytes(s: Stored): seq<Byte> {
    Header(s.event) + (s.event.payload + s.crc)
  }

  function Sealed(e: Event): Stored {
    Stored(e, Crc.Checksum(Header(e) + e.payload))
  }

  function Record(e: Event): seq<Byte> {
    Bytes(Sealed(e))
  }

  datatype Field = Number | Timestamp | Kind | PayloadLength

  /** The order of the numbers in front of a payload. */
  function Layout(): seq<Field> {
    [Number, Timestamp, Kind, PayloadLength]
  }

  /** The numbers of a list of fields, read one after the other, and the place after them. */
  function ReadNumbers(w: seq<Byte>, at: nat, fields: seq<Field>): (r: Option<(seq<nat>, nat)>)
    requires at <= |w|
    ensures r.Some? ==> |r.value.0| == |fields| && at + |fields| <= r.value.1 <= |w|
    decreases |fields|
  {
    if fields == [] then Some(([], at))
    else
      var a := Varint.Decode(w, at);
      if a.None? then None
      else
        var rest := ReadNumbers(w, at + a.value.1, fields[1..]);
        if rest.None? then None else Some(([a.value.0] + rest.value.0, rest.value.1))
  }

  /**
    The number of the record at a position and where the next one is looked for. The payload is
    skipped by a signed distance; a target before the start of the file fails the seek, and the
    reading goes on after the header bytes already read.
   */
  function Hop(file: seq<Byte>, pos: nat): (r: Option<(nat, Option<nat>)>)
    ensures r.Some? ==> pos < |file| && r.value.1.Some?
  {
    var w := Window(file, pos, OPEN_WINDOW);
    var f := ReadNumbers(w, 0, Layout());
    if f.None? then None
    else
      var target := pos + f.value.1 + Signed(f.value.0[3]) + 4;
      Some((f.value.0[0], Some(if target < 0 then pos + |w| else target)))
  }

  function Hops(file: seq<Byte>): Reader<nat> {
    (pos: nat) => Hop(file, pos)
  }

  /** Opening the file comes to an end within one turn more than the file has bytes. */
  predicate Opens(file: seq<Byte>) {
    WalkFor(Hops(file), 0, |file| + 1).Some?
  }

  /** The record numbers of a file, found by hopping from record to record. */
  function Numbers(file: seq<Byte>): seq<nat> {
    if Opens(file) then WalkFor(Hops(file), 0, |file| + 1).value else []
  }

  /** The number to go on with after all of these. */
  function Next(numbers: seq<nat>, next: nat): nat
    decreases |numbers|
  {
    if numbers == [] then next else Next(numbers[1..], Later(next, numbers[0]))
  }

  function Later(next: nat, number: nat): nat {
    if number >= next then (number + 1) % U64_LIMIT else next
  }

  /** The event read at a position and where the next one starts. The stored checksum is not compared. */
  function ReadEvent(file: seq<Byte>, pos: nat): (r: Option<(Event, Option<nat>)>)
    ensures r.Some? ==> r.value.1.Some? && pos < r.value.1.value <= |file|
  {
    var f := ReadNumbers(Window(file, pos, ITERATE_WINDOW), 0, Layout());
    if f.None? || f.value.0[3] > MAX_PAYLOAD then None
    else
      var at := pos + f.value.1;
      var plen := f.value.0[3];
      if at + plen + 4 > |file| then None
      else Some((Event(f.value.0[0], f.value.0[1], f.value.0[2], Window(file, at, plen)), Some(at + plen + 4)))
  }

  function Reads(file: seq<Byte>): Reader<Event> {
    (pos: nat) => ReadEvent(file, pos)
  }

  /** Iteration moves forward and so ends, whatever the file. */
  lemma {:induction false} IterationEnds(file: seq<Byte>)
    ensures WalkFor(Reads(file), 0, |file| + 1).Some?
  {
    ForwardEnds(Reads(file), 0, |file|, |file| + 1);
  }

  /** The events a file holds. */
  function Events(file: seq<Byte>): seq<Event> {
    IterationEnds(file);
    WalkFor(Reads(file), 0, |file| + 1).value
  }

  // ----- Reading back what was written -----

  lemma ReadCons(w: seq<Byte>, at: nat, numbers: seq<nat>, fields: seq<Field>, a: nat, end: nat)
    requires numbers != [] && |fields| == |numbers|
    requires at + a <= |w| && Varint.Decode(w, at) == Some((numbers[0], a))
    requires ReadNumbers(w, at + a, fields[1..]) == Some((numbers[1..], end))
    ensures ReadNumbers(w, at, fields) == Some((numbers, end))
  {
    assert numbers == [numbers[0]] + numbers[1..];
  }

  /** Numbers read back, whatever follows them. */
  lemma {:induction false} ReadEncoded(w: seq<Byte>, at: nat, numbers: seq<nat>, fields: seq<Field>)
    requires |fields| == |numbers| && forall i :: 0 <= i < |numbers| ==> numbers[i] < U64_LIMIT
    requires BytesAt(w, at, EncodeAll(numbers))
    ensures ReadNumbers(w, at, fields) == Some((numbers, at + |EncodeAll(numbers)|))
    ensures |EncodeAll(numbers)| <= Varint.MAX_LEN * |numbers|
    decreases |numbers|
  {
    if numbers == [] {
    } else {
      var a := Varint.Encode(numbers[0]);
      BytesAtParts(w, at, a, EncodeAll(numbers[1..]));
      Varint.RoundTrip(numbers[0], w, at);
      ReadEncoded(w, at + |a|, numbers[1..], fields[1..]);
      ReadCons(w, at, numbers, fields, |a|, at + |EncodeAll(numbers)|);
    }
  }

  lemma {:induction false} RecordLayout(file: seq<Byte>, pos: nat, s: Stored)
    requires BytesAt(file, pos, Bytes(s)) && |s.crc| == 4
    ensures var e := s.event;
            && BytesAt(file, pos, Header(e)) && BytesAt(file, pos + |Header(e)|, e.payload)
            && |Bytes(s)| == |Header(e)| + |e.payload| + 4 <= |file| - pos
  {
    var e := s.event;
    BytesAtSlice(file, pos, Bytes(s));
    BytesAtParts(file, pos, Header(e), e.payload + s.crc);
    BytesAtParts(file, pos + |Header(e)|, e.payload, s.crc);
  }

  lemma {:induction false} EncodedNotEmpty(numbers: seq<nat>)
    requires numbers != []
    ensures |EncodeAll(numbers)| > 0
  {
    assert |Varint.Encode(numbers[0])| > 0;
  }

  /** A window of ten bytes a number shows all the numbers. */
  lemma {:induction false} WindowNumbers(file: seq<Byte>, pos: nat, numbers: seq<nat>, n: nat, fields: seq<Field>)
    requires |fields| == |numbers| && forall i :: 0 <= i < |numbers| ==> numbers[i] < U64_LIMIT
    requires numbers != [] && BytesAt(file, pos, EncodeAll(numbers)) && n >= Varint.MAX_LEN * |numbers|
    ensures ReadNumbers(Window(file, pos, n), 0, fields) == Some((numbers, |EncodeAll(numbers)|))
  {
    EncodedNotEmpty(numbers);
    hide EncodeAll, ReadNumbers, BytesAt, Window;
    ReadEncoded(file, pos, numbers, fields);
    WindowShows(file, pos, EncodeAll(numbers), n);
    ReadEncoded(Window(file, pos, n), 0, numbers, fields);
  }

  lemma ReadEventWhen(file: seq<Byte>, pos: nat, numbers: seq<nat>, size: nat, payload: seq<Byte>)
    requires ReadNumbers(Window(file, pos, ITERATE_WINDOW), 0, Layout()) == Some((numbers, size))
    requires numbers[3] == |payload| <= MAX_PAYLOAD && Window(file, pos + size, |payload|) == payload
    requires pos + size + |payload| + 4 <= |file|
    ensures ReadEvent(file, pos) ==
            Some((Event(numbers[0], numbers[1], numbers[2], payload), Some(pos + size + |payload| + 4)))
  {
  }

  lemma {:induction false} ReadRecord(file: seq<Byte>, pos: nat, s: Stored)
    requires s.Fits() && BytesAt(file, pos, Bytes(s))
    ensures Reads(file)(pos) == Some((s.event, Some(pos + |Bytes(s)|))) && Bytes(s) != []
  {
    hide ReadEvent, ReadNumbers, Bytes, EncodeAll, BytesAt;
    var e := s.event;
    RecordLayout(file, pos, s);
    WindowIs(file, pos + |Header(e)|, e.payload);
    WindowNumbers(file, pos, e.Numbers(), ITERATE_WINDOW, Layout());
    ReadEventWhen(file, pos, e.Numbers(), |Header(e)|, e.payload);
  }

  lemma {:induction false} HopRecord(file: seq<Byte>, pos: nat, s: Stored)
    requires s.Fits() && BytesAt(file, pos, Bytes(s))
    ensures Hops(file)(pos) == Some((s.event.number, Some(pos + |Bytes(s)|))) && Bytes(s) != []
  {
    hide ReadNumbers, Bytes, EncodeAll, BytesAt;
    RecordLayout(file, pos, s);
    WindowNumbers(file, pos, s.event.Numbers(), OPEN_WINDOW, Layout());
  }

  predicate Fitting(s: Stored) {
    s.Fits()
  }

  predicate Never(s: Stored) {
    false
  }

  function EventOf(s: Stored, at: nat): Event {
    s.event
  }

  function NumberOf(s: Stored, at: nat): nat {
    s.event.number
  }

  /** What a log's readers should see. */
  function AllEvents(log: seq<Stored>): seq<Event> {
    seq(|log|, i requires 0 <= i < |log| => log[i].event)
  }

  function AllNumbers(events: seq<Event>): seq<nat> {
    seq(|events|, i requires 0 <= i < |events| => events[i].number)
  }

  lemma {:induction false} ViewsAreAll(log: seq<Stored>, pos: nat)
    ensures Views(Bytes, Never, EventOf, log, pos) == AllEvents(log)
    ensures Views(Bytes, Never, NumberOf, log, pos) == AllNumbers(AllEvents(log))
    decreases |log|
  {
    hide Bytes;
    if log == [] {
    } else {
      ViewsAreAll(log[1..], pos + |Bytes(log[0])|);
      assert AllEvents(log) == [log[0].event] + AllEvents(log[1..]);
      assert AllNumbers(AllEvents(log)) == [log[0].event.number] + AllNumbers(AllEvents(log[1..]));
    }
  }

  lemma EventReadsAt(file: seq<Byte>, s: Stored, pos: nat)
    requires s.Fits()
    ensures ReadsAt(Reads(file), file, Bytes, Never, EventOf, s, pos)
  {
    hide ReadEvent, Bytes;
    if BytesAt(file, pos, Bytes(s)) {
      ReadRecord(file, pos, s);
    }
  }

  lemma NumberReadsAt(file: seq<Byte>, s: Stored, pos: nat)
    requires s.Fits()
    ensures ReadsAt(Hops(file), file, Bytes, Never, NumberOf, s, pos)
  {
    hide Hop, Bytes;
    if BytesAt(file, pos, Bytes(s)) {
      HopRecord(file, pos, s);
    }
  }

  lemma RecordsRecognised(file: seq<Byte>)
    ensures Recognises(Reads(file), file, Bytes, Never, EventOf, Fitting)
    ensures Recognises(Hops(file), file, Bytes, Never, NumberOf, Fitting)
  {
    forall s, pos: nat | Fitting(s)
      ensures ReadsAt(Reads(file), file, Bytes, Never, EventOf, s, pos)
      ensures ReadsAt(Hops(file), file, Bytes, Never, NumberOf, s, pos)
    {
      EventReadsAt(file, s, pos);
      NumberReadsAt(file, s, pos);
    }
  }

  lemma ReadersWithin(file: seq<Byte>)
    ensures Within(Reads(file), |file|) && Within(Hops(file), |file|)
  {
  }

  /**
    Whatever stands in the place of the checksums, iterating a log visits all of its events, in order
    and unchanged, and opening it comes to an end and sees all their numbers.
   */
  lemma {:induction false} EventsOfAnyLog(file: seq<Byte>, log: seq<Stored>)
    requires file == Log(Bytes, log) && forall s :: s in log ==> s.Fits()
    ensures Events(file) == AllEvents(log)
    ensures Opens(file) && Numbers(file) == AllNumbers(AllEvents(log))
  {
    hide ReadEvent, Hop, Bytes;
    assert file[0..] == file;
    RecordsRecognised(file);
    ReadersWithin(file);
    ViewsAreAll(log, 0);
    WalkLog(Reads(file), file, Bytes, Never, EventOf, Fitting, log, 0, |file| + 1);
    WalkLog(Hops(file), file, Bytes, Never, NumberOf, Fitting, log, 0, |file| + 1);
  }

  /** In particular a record whose checksum is wrong is visited like any other. */
  lemma {:induction false} WrongChecksumIsVisited(e: Event)
    requires e.Fits()
    ensures var sum := Sealed(e).crc;
            var wrong := sum[0 := if sum[0] == 0 then 1 else 0];
            wrong != sum && Events(Bytes(Stored(e, wrong))) == [e]
  {
    hide Bytes;
    var sum := Sealed(e).crc;
    var wrong := sum[0 := if sum[0] == 0 then 1 else 0];
    assert wrong[0] != sum[0];
    var s := Stored(e, wrong);
    assert Log(Bytes, [s]) == Bytes(s) + Log(Bytes, []) == Bytes(s);
    EventsOfAnyLog(Bytes(s), [s]);
  }

  function SealedAll(events: seq<Event>): seq<Stored> {
    seq(|events|, i requires 0 <= i < |events| => Sealed(events[i]))
  }

  lemma {:induction false} LogOfSealed(events: seq<Event>)
    ensures Log(Record, events) == Log(Bytes, SealedAll(events))
  {
    if events == [] {
    } else {
      LogOfSealed(events[1..]);
      assert SealedAll(events)[1..] == SealedAll(events[1..]);
    }
  }

  /** Iteration gives back exactly the logged events, in order, and opening sees all their numbers. */
  lemma {:induction false} EventsOfLog(file: seq<Byte>, events: seq<Event>)
    requires file == Log(Record, events) && forall e :: e in events ==> e.Fits()
    ensures Events(file) == events
    ensures Opens(file) && Numbers(file) == AllNumbers(events)
  {
    hide Bytes, Record;
    LogOfSealed(events);
    EventsOfAnyLog(file, SealedAll(events));
    assert AllEvents(SealedAll(events)) == events;
  }

  // ----- When opening comes to an end -----

  /** Opening a file ends at all if and only if it ends within one turn more than there are bytes. */
  lemma {:induction false} OpensIffWalkEnds(file: seq<Byte>)
    ensures Opens(file) <==> Ends(Hops(file), 0)
  {
    ReadersWithin(file);
    EndsSoon(Hops(file), 0, |file|);
  }

  /** Every file opens in which no place reads as a header with a payload of 2^63 bytes or more. */
  lemma {:induction false} ShortPayloadsOpen(file: seq<Byte>)
    requires forall pos: nat ::
               var f := ReadNumbers(Window(file, pos, OPEN_WINDOW), 0, Layout()); f.Some? ==> f.value.0[3] < LONG_LIMIT
    ensures Opens(file)
  {
    forall pos: nat
      ensures var r := Hops(file)(pos); r.Some? ==> pos < |file| && (r.value.1.Some? ==> pos < r.value.1.value)
    {
      HopGoesOn(file, pos);
    }
    hide Hop, ReadNumbers;
    ForwardEnds(Hops(file), 0, |file|, |file| + 1);
  }

  lemma {:induction false} HopGoesOn(file: seq<Byte>, pos: nat)
    requires var f := ReadNumbers(Window(file, pos, OPEN_WINDOW), 0, Layout()); f.Some? ==> f.value.0[3] < LONG_LIMIT
    ensures var r := Hop(file, pos); r.Some? ==> r.value.1.Some? && pos < r.value.1.value
  {
    hide ReadNumbers;
  }

  /** Seventeen short of 2^64: after a thirteen-byte header this leads back to where the header starts. */
  function BackwardNumbers(): seq<nat> {
    [0, 0, 0, U64_LIMIT - 17]
  }

  lemma {:induction false} BackwardSize()
    ensures |EncodeAll(BackwardNumbers())| == 13
  {
    Varint.EncodedSize(U64_LIMIT - 17);
    Varint.EncodedSpan(U64_LIMIT - 17);
    var n := BackwardNumbers();
    assert n[1..] == [0, 0, U64_LIMIT - 17] && n[1..][1..] == [0, U64_LIMIT - 17];
    assert n[1..][1..][1..] == [U64_LIMIT - 17] && n[1..][1..][1..][1..] == [];
    assert |Varint.Encode(0)| == 1;
    assert |EncodeAll(n[1..][1..][1..])| == 10;
    assert |EncodeAll(n[1..][1..])| == 11;
    assert |EncodeAll(n[1..])| == 12;
  }

  /** So there is a file of thirteen bytes on which opening never ends. */
  lemma {:induction false} BackwardFileNeverOpens()
    ensures !Ends(Hops(EncodeAll(BackwardNumbers())), 0)
  {
    hide ReadNumbers, EncodeAll, BytesAt;
    var file := EncodeAll(BackwardNumbers());
    assert [] + file == file;
    Appended([], file);
    BackwardSize();
    WindowNumbers(file, 0, BackwardNumbers(), OPEN_WINDOW, Layout());
    assert Hops(file)(0) == Some((0, Some(0)));
    forall turns: nat
      ensures WalkFor(Hops(file), 0, turns).None?
    {
      LoopNeverEnds(Hops(file), 0, turns);
    }
  }

  // ----- Numbering -----

  /** Events numbered consecutively from `next` on. */
  ghost predicate Numbered(events: seq<Event>, next: nat) {
    forall i :: 0 <= i < |events| ==> events[i].number == next + i
  }

  lemma {:induction false} NextOfNumbered(events: seq<Event>, next: nat)
    requires next + |events| < U64_LIMIT && Numbered(events, next)
    ensures Next(AllNumbers(events), next) == next + |events|
    decreases |events|
  {
    if events == [] {
    } else {
      assert AllNumbers(events)[1..] == AllNumbers(events[1..]);
      NextOfNumbered(events[1..], next + 1);
    }
  }

  // ----- Sessions -----

  /** What a caller asks to append, with the clock's reading at that moment. */
  datatype Entry = Entry(timestamp: nat, kind: nat, payload: seq<Byte>)

  datatype State = State(file: seq<Byte>, next: nat)

  function Opened(file: seq<Byte>): State {
    State(file, Next(Numbers(file), 1))
  }

  function Extend(s: State, x: Entry): State {
    if |x.payload| > MAX_PAYLOAD then s
    else State(s.file + Record(EventFor(x, s.next)), (s.next + 1) % U64_LIMIT)
  }

  function Session(s: State, entries: seq<Entry>): State
    decreases |entries|
  {
    if entries == [] then s else Session(Extend(s, entries[0]), entries[1..])
  }

  /** The file after any number of open-append-close sessions. */
  function Sessions(file: seq<Byte>, sessions: seq<seq<Entry>>): seq<Byte>
    decreases |sessions|
  {
    if sessions == [] then file else Sessions(Session(Opened(file), sessions[0]).file, sessions[1..])
  }

  /** The entries that are not refused for their size. */
  function Accepted(entries: seq<Entry>): seq<Entry> {
    if entries == [] then []
    else if |entries[0].payload| > MAX_PAYLOAD then Accepted(entries[1..])
    else [entries[0]] + Accepted(entries[1..])
  }

  function AllAccepted(sessions: seq<seq<Entry>>): seq<Entry> {
    if sessions == [] then [] else Accepted(sessions[0]) + AllAccepted(sessions[1..])
  }

  function EventFor(x: Entry, number: nat): Event {
    Event(number, x.timestamp, x.kind, x.payload)
  }

  /** The events that entries become when the first of them gets the number `next`. */
  function EventsFor(entries: seq<Entry>, next: nat): seq<Event> {
    seq(|entries|, i requires 0 <= i < |entries| => EventFor(entries[i], next + i))
  }

  predicate WordSized(x: Entry) {
    x.timestamp < U64_LIMIT && x.kind < U64_LIMIT
  }

  lemma {:induction false} AcceptedFit(entries: seq<Entry>)
    requires forall x :: x in entries ==> WordSized(x)
    ensures forall x :: x in Accepted(entries) ==> WordSized(x) && |x.payload| <= MAX_PAYLOAD
  {
    if entries == [] {
    } else {
      AcceptedFit(entries[1..]);
    }
  }

  lemma EventsForAppend(a: seq<Entry>, b: seq<Entry>, next: nat)
    ensures EventsFor(a + b, next) == EventsFor(a, next) + EventsFor(b, next + |a|)
  {
  }

  lemma LogCons(file: seq<Byte>, x: Entry, rest: seq<Entry>, next: nat)
    ensures file + Record(EventFor(x, next)) + Log(Record, EventsFor(rest, next + 1)) ==
            file + Log(Record, EventsFor([x] + rest, next))
  {
    var events := EventsFor([x] + rest, next);
    assert ([x] + rest)[1..] == rest;
    assert events[1..] == EventsFor(rest, next + 1);
    Regroup(file, Record(events[0]), Log(Record, events[1..]));
  }

  /** One session appends the records of its accepted entries, numbered from `next`. */
  lemma {:induction false} SessionAppends(s: State, entries: seq<Entry>, accepted: seq<Entry>)
    requires accepted == Accepted(entries) && s.next + |accepted| < U64_LIMIT
    ensures Session(s, entries).file == s.file + Log(Record, EventsFor(accepted, s.next))
    decreases |entries|
  {
    if entries == [] {
    } else if |entries[0].payload| > MAX_PAYLOAD {
      SessionAppends(s, entries[1..], accepted);
    } else {
      AcceptedCons(entries, accepted);
      ExtendAccepts(s, entries[0], accepted[1..]);
      SessionAppends(Extend(s, entries[0]), entries[1..], accepted[1..]);
    }
  }

  lemma ExtendAccepts(s: State, x: Entry, rest: seq<Entry>)
    requires |x.payload| <= MAX_PAYLOAD && s.next + 1 < U64_LIMIT
    ensures var t := Extend(s, x);
            && t.next == s.next + 1
            && t.file + Log(Record, EventsFor(rest, t.next)) == s.file + Log(Record, EventsFor([x] + rest, s.next))
  {
    hide Record, Log, EventsFor;
    LogCons(s.file, x, rest, s.next);
  }

  lemma {:induction false} AcceptedCons(entries: seq<Entry>, accepted: seq<Entry>)
    requires entries != [] && |entries[0].payload| <= MAX_PAYLOAD && accepted == Accepted(entries)
    ensures accepted == [entries[0]] + accepted[1..] && accepted[1..] == Accepted(entries[1..])
  {
  }

  lemma EventsFit(entries: seq<Entry>, next: nat)
    requires forall x :: x in entries ==> WordSized(x) && |x.payload| <= MAX_PAYLOAD
    requires next + |entries| < U64_LIMIT
    ensures forall e :: e in EventsFor(entries, next) ==> e.Fits()
  {
    var events := EventsFor(entries, next);
    forall i | 0 <= i < |events|
      ensures events[i].Fits()
    {
      assert WordSized(entries[i]);
    }
  }

  lemma {:induction false} OpenedOn(file: seq<Byte>, events: seq<Event>)
    requires file == Log(Record, events) && Numbered(events, 1) && 1 + |events| < U64_LIMIT
    requires forall e :: e in events ==> e.Fits()
    ensures Opened(file).next == 1 + |events|
  {
    EventsOfLog(file, events);
    NextOfNumbered(events, 1);
  }

  lemma {:induction false} SessionGrowsLog(s: State, before: seq<Entry>, entries: seq<Entry>)
    requires s == State(Log(Record, EventsFor(before, 1)), 1 + |before|)
    requires 1 + |before| + |Accepted(entries)| < U64_LIMIT
    ensures Session(s, entries).file == Log(Record, EventsFor(before + Accepted(entries), 1))
  {
    SessionAppends(s, entries, Accepted(entries));
    EventsForAppend(before, Accepted(entries), 1);
    LogAppend(Record, EventsFor(before, 1), EventsFor(Accepted(entries), 1 + |before|));
  }

  /** One session on such a log leaves such a log. */
  lemma {:induction false} SessionMakesLog(before: seq<Entry>, entries: seq<Entry>)
    requires forall x :: x in before ==> WordSized(x) && |x.payload| <= MAX_PAYLOAD
    requires 1 + |before| + |Accepted(entries)| < U64_LIMIT
    ensures Session(Opened(Log(Record, EventsFor(before, 1))), entries).file ==
            Log(Record, EventsFor(before + Accepted(entries), 1))
  {
    EventsFit(before, 1);
    OpenedOn(Log(Record, EventsFor(before, 1)), EventsFor(before, 1));
    SessionGrowsLog(Opened(Log(Record, EventsFor(before, 1))), before, entries);
  }

  /** After any sessions the file is the log of all accepted entries, numbered 1, 2, 3, ... */
  lemma {:induction false} SessionsMakeLog(before: seq<Entry>, sessions: seq<seq<Entry>>)
    requires forall x :: x in before ==> WordSized(x) && |x.payload| <= MAX_PAYLOAD
    requires forall i :: 0 <= i < |sessions| ==> forall x :: x in sessions[i] ==> WordSized(x)
    requires 1 + |before| + |AllAccepted(sessions)| < U64_LIMIT
    ensures Sessions(Log(Record, EventsFor(before, 1)), sessions) ==
            Log(Record, EventsFor(before + AllAccepted(sessions), 1))
    decreases |sessions|
  {
    if sessions == [] {
      assert before + AllAccepted(sessions) == before;
    } else {
      var now := Accepted(sessions[0]);
      SessionMakesLog(before, sessions[0]);
      AcceptedFit(sessions[0]);
      SessionsMakeLog(before + now, sessions[1..]);
      Regroup(before, now, AllAccepted(sessions[1..]));
    }
  }

  /**
    Across any number of sessions, iterating the file visits exactly the accepted entries, in order,
    with their kinds and payloads and the numbers 1, 2, 3, ...
   */
  lemma {:induction false} IterationIsComplete(sessions: seq<seq<Entry>>)
    requires forall i :: 0 <= i < |sessions| ==> forall x :: x in sessions[i] ==> WordSized(x)
    requires 1 + |AllAccepted(sessions)| < U64_LIMIT
    ensures Events(Sessions([], sessions)) == EventsFor(AllAccepted(sessions), 1)
    ensures Numbered(Events(Sessions([], sessions)), 1)
  {
    hide Sessions, AllAccepted, Events, Record, Log, EventsFor, Numbered;
    EmptyLog();
    SessionsMakeLog([], sessions);
    assert [] + AllAccepted(sessions) == AllAccepted(sessions);
    AllAcceptedFit(sessions);
    LogIsComplete(AllAccepted(sessions));
  }

  lemma {:induction false} EmptyLog()
    ensures Log(Record, EventsFor([], 1)) == []
  {
  }

  lemma {:induction false} LogIsComplete(entries: seq<Entry>)
    requires 1 + |entries| < U64_LIMIT && forall x :: x in entries ==> WordSized(x) && |x.payload| <= MAX_PAYLOAD
    ensures var events := Events(Log(Record, EventsFor(entries, 1)));
            events == EventsFor(entries, 1) && Numbered(events, 1)
  {
    hide Events, Record, Log;
    EventsFit(entries, 1);
    EventsOfLog(Log(Record, EventsFor(entries, 1)), EventsFor(entries, 1));
  }

  lemma {:induction false} AllAcceptedFit(sessions: seq<seq<Entry>>)
    requires forall i :: 0 <= i < |sessions| ==> forall x :: x in sessions[i] ==> WordSized(x)
    ensures forall x :: x in AllAccepted(sessions) ==> WordSized(x) && |x.payload| <= MAX_PAYLOAD
  {
    if sessions == [] {
    } else {
      AcceptedFit(sessions[0]);
      AllAcceptedFit(sessions[1..]);
    }
  }

  // ----- The log as the program keeps it -----

  method ParseNumbers(w: seq<Byte>, at: nat, fields: seq<Field>) returns (r: Option<(seq<nat>, nat)>)
    requires at <= |w|
    ensures r == ReadNumbers(w, at, fields)
    decreases |fields|
  {
    if fields == [] {
      return Some(([], at));
    }
    var a := Varint.DecodeU64(w, at);
    if a.None? {
      return None;
    }
    var rest := ParseNumbers(w, at + a.value.1, fields[1..]);
    if rest.None? {
      return None;
    }
    return Some(([a.value.0] + rest.value.0, rest.value.1));
  }

  /** Reads the numbers at a position and seeks past the payload they announce. */
  method ReadHop(file: seq<Byte>, pos: nat) returns (h: Option<(nat, Option<nat>)>)
    ensures h == Hop(file, pos)
  {
    var w := Window(file, pos, OPEN_WINDOW);
    var f := ParseNumbers(w, 0, Layout());
    if f.None? {
      return None;
    }
    var after: nat := pos + |w|;
    var target := pos + f.value.1 + Signed(f.value.0[3]) + 4;
    if target >= 0 {
      after := target;
    }
    return Some((f.value.0[0], Some(after)));
  }

  /** Reads the event at a position, or reports that nothing more can be read. */
  method LoadEvent(file: seq<Byte>, pos: nat) returns (r: Option<(Event, Option<nat>)>)
    ensures r == ReadEvent(file, pos)
  {
    hide ReadNumbers;
    var f := ParseNumbers(Window(file, pos, ITERATE_WINDOW), 0, Layout());
    if f.None? || f.value.0[3] > MAX_PAYLOAD {
      return None;
    }
    var at, plen := pos + f.value.1, f.value.0[3];
    var payload := Window(file, at, plen);
    if |payload| != plen {
      return None;
    }
    var crc := Window(file, at + plen, 4);
    if |crc| != 4 {
      return None;
    }
    return Some((Event(f.value.0[0], f.value.0[1], f.value.0[2], payload), Some(at + plen + 4)));
  }

  /** Hopping on from a place with this number so far ends in so many turns, and with the goal. */
  ghost predicate Recovers(read: Reader<nat>, pos: nat, turns: nat, next: nat, goal: nat) {
    WalkFor(read, pos, turns).Some? && Next(WalkFor(read, pos, turns).value, next) == goal
  }

  lemma {:induction false} RecoverStep(read: Reader<nat>, pos: nat, turns: nat, next: nat, goal: nat)
    requires Recovers(read, pos, turns, next, goal) && (read(pos).Some? ==> read(pos).value.1.Some?)
    ensures turns > 0
    ensures if read(pos).None? then next == goal
            else Recovers(read, read(pos).value.1.value, turns - 1, Later(next, read(pos).value.0), goal)
  {
    if read(pos).Some? {
      var rest := WalkFor(read, read(pos).value.1.value, turns - 1).value;
      assert ([read(pos).value.0] + rest)[1..] == rest;
    }
  }

  lemma {:induction false} RecoverStart(file: seq<Byte>)
    requires Opens(file)
    ensures Recovers(Hops(file), 0, |file| + 1, 1, Opened(file).next)
  {
  }

  /** Walks the records of an existing file to find the next number. */
  method RecoverNext(file: seq<Byte>) returns (next: nat)
    requires Opens(file)
    ensures next == Opened(file).next && next < U64_LIMIT
  {
    hide WalkFor, Hop, Recovers, Opened;
    next := 1;
    var pos := 0;
    ghost var turns: nat := |file| + 1;
    RecoverStart(file);
    while true
      invariant next < U64_LIMIT && Recovers(Hops(file), pos, turns, next, Opened(file).next)
      decreases turns
    {
      var h := ReadHop(file, pos);
      RecoverStep(Hops(file), pos, turns, next, Opened(file).next);
      if h.None? {
        break;
      }
      pos, turns := h.value.1.value, turns - 1;
      if h.value.0 >= next {
        next := (h.value.0 + 1) % U64_LIMIT;
      }
    }
  }

  lemma {:induction false} EncodeFour(a: nat, b: nat, c: nat, d: nat)
    ensures EncodeAll([a, b, c, d]) ==
            Varint.Encode(a) + Varint.Encode(b) + Varint.Encode(c) + Varint.Encode(d)
  {
    hide Varint.Encode;
    var n := [a, b, c, d];
    assert n[1..] == [b, c, d] && [b, c, d][1..] == [c, d] && [c, d][1..] == [d] && [d][1..] == [];
    assert EncodeAll([d]) == Varint.Encode(d);
    assert EncodeAll([c, d]) == Varint.Encode(c) + Varint.Encode(d);
    assert EncodeAll([b, c, d]) == Varint.Encode(b) + (Varint.Encode(c) + Varint.Encode(d));
  }

  /** The four numbers in a buffer that holds the longest of them. */
  method MakeHeader(number: nat, now: nat, kind: nat, plen: nat) returns (header: seq<Byte>)
    requires number < U64_LIMIT && now < U64_LIMIT && kind < U64_LIMIT && plen < U64_LIMIT
    ensures header == EncodeAll([number, now, kind, plen])
  {
    hide Varint.Encode, EncodeAll;
    var buffer := new Byte[ITERATE_WINDOW];
    var n := Varint.AppendU64(number, buffer, 0);
    assert buffer[..n] == Varint.Encode(number);
    n := Varint.AppendU64(now, buffer, n);
    n := Varint.AppendU64(kind, buffer, n);
    n := Varint.AppendU64(plen, buffer, n);
    EncodeFour(number, now, kind, plen);
    header := buffer[..n];
  }

  class Journal {
    var file: seq<Byte>
    var next: nat

    predicate Valid()
      reads this
    {
      next < U64_LIMIT
    }

    function View(): State
      reads this
    {
      State(file, next)
    }

    /** Opens a log and recovers its numbering; returns for every file whose walk ends. */
    constructor (contents: seq<Byte>)
      requires Opens(contents)
      ensures Valid() && View() == Opened(contents)
    {
      var recovered := RecoverNext(contents);
      file := contents;
      next := recovered;
    }

    method Append(now: nat, kind: nat, payload: seq<Byte>, sums: Crc.Crc32c) returns (ok: bool)
      requires Valid() && now < U64_LIMIT && kind < U64_LIMIT && sums.Valid()
      modifies this, sums`ready, sums.table
      ensures Valid() && sums.Valid()
      ensures View() == Extend(old(View()), Entry(now, kind, payload))
      ensures ok <==> |payload| <= MAX_PAYLOAD
    {
      if |payload| > MAX_PAYLOAD {
        return false;
      }
      hide EncodeAll, Crc.Checksum;
      var header := MakeHeader(next, now, kind, |payload|);
      var tail := SumInParts(header, payload, sums);
      file := file + (header + (payload + tail));
      next := (next + 1) % U64_LIMIT;
      return true;
    }
  }

  /** The checksum of a record in two pieces; an empty payload is not fed. */
  method SumInParts(header: seq<Byte>, payload: seq<Byte>, sums: Crc.Crc32c) returns (tail: seq<Byte>)
    requires sums.Valid()
    modifies sums`ready, sums.table
    ensures sums.Valid() && tail == Crc.Checksum(header + payload)
  {
    var crc := sums.Update(Crc.Ones(), header);
    if payload != [] {
      crc := sums.Update(crc, payload);
    }
    Crc.DivideAppend(Crc.Ones(), header, payload);
    tail := Crc.Finish(crc);
  }

  /** The events up to and including the first one the visitor stops at. */
  function Visited(events: seq<Event>, stop: Event -> bool): seq<Event> {
    if events == [] then []
    else if stop(events[0]) then [events[0]]
    else [events[0]] + Visited(events[1..], stop)
  }

  /** Iterating on from a place ends in so many turns, and what is still to be visited completes the goal. */
  ghost predicate Visits(read: Reader<Event>, pos: nat, turns: nat, stop: Event -> bool,
                         seen: seq<Event>, goal: seq<Event>)
  {
    WalkFor(read, pos, turns).Some? && seen + Visited(WalkFor(read, pos, turns).value, stop) == goal
  }

  lemma {:induction false} VisitStep(read: Reader<Event>, pos: nat, turns: nat, stop: Event -> bool,
                                     seen: seq<Event>, goal: seq<Event>)
    requires Visits(read, pos, turns, stop, seen, goal) && (read(pos).Some? ==> read(pos).value.1.Some?)
    ensures turns > 0
    ensures if read(pos).None? then seen == goal
            else if stop(read(pos).value.0) then seen + [read(pos).value.0] == goal
            else Visits(read, read(pos).value.1.value, turns - 1, stop, seen + [read(pos).value.0], goal)
  {
    if read(pos).Some? {
      var e, rest := read(pos).value.0, WalkFor(read, read(pos).value.1.value, turns - 1).value;
      assert ([e] + rest)[1..] == rest;
      Regroup(seen, [e], Visited(rest, stop));
    }
  }

  method Iterate(file: seq<Byte>, stop: Event -> bool) returns (seen: seq<Event>)
    ensures seen == Visited(Events(file), stop)
  {
    hide WalkFor, ReadEvent, Visits, Visited;
    seen := [];
    var pos := 0;
    ghost var turns: nat := |file| + 1;
    VisitStart(file, stop);
    while true
      invariant Visits(Reads(file), pos, turns, stop, seen, Visited(Events(file), stop))
      decreases turns
    {
      var r := LoadEvent(file, pos);
      VisitStep(Reads(file), pos, turns, stop, seen, Visited(Events(file), stop));
      if r.None? {
        break;
      }
      var (e, after) := r.value;
      seen := seen + [e];
      if stop(e) {
        break;
      }
      pos, turns := after.value, turns - 1;
    }
  }

  lemma {:induction false} VisitStart(file: seq<Byte>, stop: Event -> bool)
    ensures Visits(Reads(file), 0, |file| + 1, stop, [], Visited(Events(file), stop))
  {
    IterationEnds(file);
  }
}
