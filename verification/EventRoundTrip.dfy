/** Reading what was written: the parser recovers the events of a generated file up to the end of the range. */
module EventRoundTrip {
  import opened Bytes
  import opened BigEndian
  import opened EventFormat
  import opened Netpod
  import opened EventFile
  import opened NeedMinBuffer
  import opened EventChunker
  import opened EventReading
  import Sequences

  // ---------- where the fields of an event are ----------

  /** The fixed fields. */
  function Fixed(e: Source): (r: seq<byte>)
    ensures |r| == 38
  {
    BE(MARK, 8) + BE(e.ts, 8) + BE(e.pulse, 8) + BE(MARK, 8) + [0, 0] + BE(NONE, 4)
  }

  lemma FixedFields(e: Source)
    ensures Fixed(e)[8..16] == BE(e.ts, 8) && Fixed(e)[16..24] == BE(e.pulse, 8) && Fixed(e)[34..38] == BE(NONE, 4)
  {
    hide BE;
  }

  lemma EventParts(w: Writing, e: Source, rest: seq<byte>)
    requires w.count < 0x1_0000_0000
    ensures var (b, n, f) := (EventBytes(w, e) + rest, EventLength(w, e), |FlagBytes(w)|);
            && |b| == n + |rest|
            && b[0..4] == BE(n, 4) && b[4..42] == Fixed(e) && b[42..42 + f] == FlagBytes(w)
            && b[42 + f..n - 4] == e.payload && b[n..] == rest
  {
    hide BE, Fixed, FlagBytes;
    var (n, f) := (EventLength(w, e), FlagBytes(w));
    BodyParts(w, e);
    var b := BE(n, 4) + (Fixed(e) + f + e.payload) + BE(n, 4) + rest;
    assert b == EventBytes(w, e) + rest;
  }

  lemma BodyParts(w: Writing, e: Source)
    requires w.count < 0x1_0000_0000
    ensures BodyBytes(w, e) == Fixed(e) + FlagBytes(w) + e.payload
  {
    hide BE, FlagBytes;
  }

  lemma FieldOf(b: seq<byte>, part: seq<byte>, at: nat, i: nat, k: nat, value: nat)
    requires at + |part| <= |b| && b[at..at + |part|] == part && i + k <= |part| && part[i..i + k] == BE(value, k)
    requires value < Pow256(k)
    ensures U(b, at + i, k) == value
  {
    hide BE;
    Sequences.Window(b, at, part, i, i + k);
    ReadWritten(value, k);
  }

  /** Times and pulses are 64 bit numbers, and the event has a length. */
  predicate Writable(w: Writing, e: Source, limit: nat) {
    && w.count < 0x1_0000_0000
    && e.ts < 0x1_0000_0000_0000_0000 && e.pulse < 0x1_0000_0000_0000_0000
    && EventLength(w, e) <= limit < 0x8000_0000
  }

  lemma Fields(w: Writing, e: Source, rest: seq<byte>, limit: nat)
    requires Writable(w, e, limit)
    ensures var b := EventBytes(w, e) + rest;
            && U(b, 0, 4) == EventLength(w, e) && U(b, 12, 8) == e.ts && U(b, 20, 8) == e.pulse && U(b, 38, 4) == NONE
  {
    hide BE, Fixed, FlagBytes, EventBytes, U;
    var b := EventBytes(w, e) + rest;
    EventParts(w, e, rest);
    FixedFields(e);
    Pow256Values();
    var n := BE(EventLength(w, e), 4);
    assert n[0..4] == n;
    FieldOf(b, n, 0, 0, 4, EventLength(w, e));
    FieldOf(b, Fixed(e), 4, 8, 8, e.ts);
    FieldOf(b, Fixed(e), 4, 16, 8, e.pulse);
    FieldOf(b, Fixed(e), 4, 34, 4, NONE);
  }

  /** Every byte of a written event, by its place. */
  lemma EventLayout(w: Writing, e: Source, limit: nat)
    requires Writable(w, e, limit)
    ensures var (b, n) := (EventBytes(w, e), EventLength(w, e));
            && |b| == n && FromBE(b[0..4]) == n && FromBE(b[n - 4..n]) == n
            && FromBE(b[4..12]) == 0xcafe_cafe && FromBE(b[12..20]) == e.ts && FromBE(b[20..28]) == e.pulse && FromBE(b[28..36]) == 0xcafe_cafe
            && b[36..42] == [0, 0, 255, 255, 255, 255] && b[43] == w.typeIndex
            && (if w.compression then
                  && b[42] == (if w.bigEndian then 0xF0 else 0xD0) && b[44..46] == [0, 1] && FromBE(b[46..50]) == w.count
                  && n == 54 + |e.payload| && b[50..n - 4] == e.payload
                else
                  && b[42] == (if w.bigEndian then 0x20 else 0) && n == 48 + |e.payload| && b[44..n - 4] == e.payload)
  {
    hide BE, Fixed, FlagBytes, EventBytes, U, FromBE;
    var b := EventBytes(w, e);
    assert b + [] == b;
    EventParts(w, e, []);
    Fields(w, e, [], limit);
    FlagsAt(w, e, []);
    UIs(b);
    FixedMarks(e);
    Sequences.Window(b, 4, Fixed(e), 0, 8);
    Sequences.Window(b, 4, Fixed(e), 24, 32);
    Sequences.Window(b, 4, Fixed(e), 32, 38);
    LengthAtEnd(w, e);
    ReadWritten(MARK, 8);
    ReadWritten(EventLength(w, e), 4);
    Pow256Values();
  }

  lemma UIs(b: seq<byte>)
    ensures forall i: nat, n: nat :: i + n <= |b| ==> U(b, i, n) == FromBE(b[i..i + n])
  {}

  lemma FixedMarks(e: Source)
    ensures Fixed(e)[0..8] == BE(MARK, 8) && Fixed(e)[24..32] == BE(MARK, 8) && Fixed(e)[32..38] == [0, 0, 255, 255, 255, 255]
  {
    assert BE(NONE, 4) == [255, 255, 255, 255] by { AllSet(); }
    hide BE;
  }

  lemma AllSet()
    ensures BE(NONE, 4) == [255, 255, 255, 255]
  {
    assert BE(0xFF, 1) == [255];
    assert BE(0xFFFF, 2) == [255, 255];
    assert BE(0xFF_FFFF, 3) == [255, 255, 255];
  }

  lemma LengthAtEnd(w: Writing, e: Source)
    requires w.count < 0x1_0000_0000
    ensures var (b, n) := (EventBytes(w, e), EventLength(w, e)); b[n - 4..n] == BE(n, 4)
  {
    hide BE, BodyBytes;
  }

  /** The shape and type a file is read with are those it was written with. */
  predicate Suits(c: Conf, w: Writing) {
    && TypeOf(w.typeIndex) == Some(c.scalarType)
    && c.shape == if w.compression then Wave(w.count) else Scalar
  }

  function EventOf(c: Conf, w: Writing, e: Source): Event {
    Event(e.ts, e.pulse, e.payload, c.scalarType, w.bigEndian, c.shape, w.compression)
  }

  lemma FlagsAt(w: Writing, e: Source, rest: seq<byte>)
    requires w.count < 0x1_0000_0000
    ensures var b := EventBytes(w, e) + rest;
            && 44 <= |b| && b[42] == (if w.compression then (if w.bigEndian then 0xF0 else 0xD0) else if w.bigEndian then 0x20 else 0)
            && b[43] == w.typeIndex
            && (w.compression ==> 50 <= |b| && b[44] == 0 && b[45] == 1 && U(b, 46, 4) == w.count)
  {
    hide BE, Fixed, EventBytes, U;
    var (b, f) := (EventBytes(w, e) + rest, FlagBytes(w));
    EventParts(w, e, rest);
    assert b[42..42 + |f|] == f;
    assert b[42] == b[42..42 + |f|][0] && b[43] == b[42..42 + |f|][1];
    if w.compression {
      assert b[44] == b[42..42 + |f|][2] && b[45] == b[42..42 + |f|][3];
      Pow256Values();
      assert f[4..8] == BE(w.count, 4);
      FieldOf(b, f, 42, 4, 4, w.count);
    }
  }

  lemma FlagBits(compression: bool, bigEndian: bool)
    ensures var flags: byte := if compression then (if bigEndian then 0xF0 else 0xD0) else if bigEndian then 0x20 else 0;
            && Has(flags, COMPRESSION) == Has(flags, ARRAY) == Has(flags, SHAPE) == compression
            && Has(flags, BIG_ENDIAN) == bigEndian
  {}

  lemma DecodedIs(c: Conf, w: Writing, e: Source, rest: seq<byte>, limit: nat)
    requires Writable(w, e, limit) && Suits(c, w)
    ensures Decode(c, EventBytes(w, e) + rest, EventLength(w, e)) == Decoded(EventOf(c, w, e), c.accepts(EventOf(c, w, e)))
  {
    hide BE, Fixed, FlagBytes, EventBytes, U, Has;
    var b := EventBytes(w, e) + rest;
    EventParts(w, e, rest);
    Fields(w, e, rest, limit);
    FlagsAt(w, e, rest);
    FlagBits(w.compression, w.bigEndian);
  }

  /** An event that was written is what the parser finds. */
  lemma WrittenEvent(c: Conf, w: Writing, st: St, e: Source, rest: seq<byte>, limit: nat)
    requires Writable(w, e, limit) && Suits(c, w) && limit <= LengthLimit(c.shape)
    ensures var (f, st1) := (EventFrame(c, st, EventBytes(w, e) + rest), Seen(c, st, e.ts));
            if st1.done then f == Stop(st1.(before := st.before))
            else if st1.before > 100 && e.ts < c.beg then f == Fail
            else f == Took(EventLength(w, e), st1,
                           if c.accepts(EventOf(c, w, e)) && e.ts >= st.lastTs && e.ts < c.end then Some(EventOf(c, w, e)) else None)
  {
    hide BE, Fixed, FlagBytes, EventBytes, U, Decode, Seen, EventLength;
    Fields(w, e, rest, limit);
    DecodedIs(c, w, e, rest, limit);
    LengthOf(w, e, rest);
  }

  lemma LengthOf(w: Writing, e: Source, rest: seq<byte>)
    requires w.count < 0x1_0000_0000
    ensures 48 <= EventLength(w, e) <= |EventBytes(w, e) + rest|
  {}

  // ---------- a whole file ----------

  lemma {:induction false} AllEventsFront(w: Writing, e: Source, es: seq<Source>)
    requires w.count < 0x1_0000_0000
    ensures AllEvents(w, [e] + es) == EventBytes(w, e) + AllEvents(w, es)
    decreases |es|
  {
    hide EventBytes;
    var all := [e] + es;
    if es == [] {
      assert all[..0] == [] && all == [e];
      assert AllEvents(w, all) == AllEvents(w, []) + EventBytes(w, e);
    } else {
      var n := |es| - 1;
      assert all[..|all| - 1] == [e] + es[..n];
      AllEventsFront(w, e, es[..n]);
      assert EventBytes(w, e) + AllEvents(w, es[..n]) + EventBytes(w, es[n]) == EventBytes(w, e) + (AllEvents(w, es[..n]) + EventBytes(w, es[n]));
    }
  }

  /** The events the reader is to find: those before the end of the range, with their fields. */
  function Expected(c: Conf, w: Writing, events: seq<Source>): seq<Event> {
    if events == [] then []
    else (if events[0].ts < c.end then [EventOf(c, w, events[0])] else []) + Expected(c, w, events[1..])
  }

  function CountBefore(c: Conf, events: seq<Source>): nat {
    if events == [] then 0
    else (if events[0].ts < c.beg then 1 else 0) + CountBefore(c, events[1..])
  }

  predicate AnyPast(c: Conf, events: seq<Source>) {
    events != [] && (events[0].ts >= c.end || AnyPast(c, events[1..]))
  }

  /** Times do not decrease. */
  predicate InTime(from: nat, events: seq<Source>)
    decreases |events|
  {
    events == [] || (from <= events[0].ts && InTime(events[0].ts, events[1..]))
  }

  predicate AllWritable(c: Conf, w: Writing, events: seq<Source>, limit: nat) {
    forall i :: 0 <= i < |events| ==> Writable(w, events[i], limit) && c.accepts(EventOf(c, w, events[i]))
  }

  lemma {:induction false} PastEnd(c: Conf, w: Writing, from: nat, events: seq<Source>)
    requires InTime(from, events)
    ensures from >= c.end ==> Expected(c, w, events) == []
    ensures from >= c.beg ==> CountBefore(c, events) == 0
    decreases |events|
  {
    if events != [] { PastEnd(c, w, events[0].ts, events[1..]); }
  }

  /** What is known between two events of a file in order. */
  predicate Between(c: Conf, st: St) {
    !st.inHeader && !st.done && st.after <= 1 && st.before <= 100 && (st.after == 1 ==> st.lastTs >= c.end)
  }

  /** What reading events is to come to. */
  ghost predicate Recovers(c: Conf, w: Writing, max: nat, st: St, events: seq<Source>, buf: seq<byte>) {
    var r := Run(c, max, st, buf);
    && Regular(c, max, st, buf)
    && (r.ok <==> st.before + CountBefore(c, events) <= 100)
    && (r.ok ==> r.events == Expected(c, w, events) && (r.st.beyond <==> st.beyond || AnyPast(c, events)))
  }

  lemma {:induction false} ReadsWritten(c: Conf, w: Writing, max: nat, st: St, events: seq<Source>)
    requires 513 <= max <= LengthLimit(c.shape) && max < 0x8000_0000 && w.count < 0x1_0000_0000 && Suits(c, w) && c.beg <= c.end
    requires Between(c, st) && InTime(st.lastTs, events) && AllWritable(c, w, events, max)
    ensures Recovers(c, w, max, st, events, AllEvents(w, events))
    decreases |events|
  {
    hide EventBytes, Seen, EventLength;
    if events == [] {
      NothingYet(c, st, []);
    } else {
      var (e, es) := (events[0], events[1..]);
      var (buf, rest) := (AllEvents(w, events), AllEvents(w, es));
      assert events == [e] + es;
      AllEventsFront(w, e, es);
      WrittenEvent(c, w, st, e, rest, max);
      LengthOf(w, e, rest);
      Fields(w, e, rest, max);
      AfterEvent(c, st, e.ts);
      var st1 := Seen(c, st, e.ts);
      PastEnd(c, w, e.ts, es);
      if !st1.done && !(st1.before > 100 && e.ts < c.beg) {
        EventParts(w, e, rest);
        assert buf[EventLength(w, e)..] == rest;
        ReadsWritten(c, w, max, st1, es);
        OneRead(c, w, max, st, e, es, buf, st1);
      } else {
        OneNotTaken(c, w, max, st, e, es, buf);
      }
    }
  }

  lemma AfterEvent(c: Conf, st: St, ts: nat)
    requires Between(c, st) && st.lastTs <= ts
    ensures var st1 := Seen(c, st, ts);
            && !st1.inHeader && st1.lastTs == ts && st1.before == st.before + (if ts < c.beg then 1 else 0)
            && (st1.beyond <==> st.beyond || ts >= c.end) && (st1.done ==> ts >= c.end) && (st1.done || st1.before > 100 || Between(c, st1))
  {}

  lemma OneRead(c: Conf, w: Writing, max: nat, st: St, e: Source, es: seq<Source>, buf: seq<byte>, st1: St)
    requires EventLength(w, e) <= |buf| && EventLength(w, e) <= max && w.count < 0x1_0000_0000 && !st.inHeader && !st.done
    requires FrameOf(c, st, buf) == Took(EventLength(w, e), st1, if e.ts < c.end then Some(EventOf(c, w, e)) else None)
    requires st1.beyond <==> st.beyond || e.ts >= c.end
    requires Recovers(c, w, max, st1, es, buf[EventLength(w, e)..]) && st1.before == st.before + (if e.ts < c.beg then 1 else 0)
    ensures Recovers(c, w, max, st, [e] + es, buf)
  {
    hide FrameOf, EventLength, EventOf;
    assert ([e] + es)[1..] == es;
    assert forall x: seq<Event> :: [] + x == x;
  }

  lemma OneNotTaken(c: Conf, w: Writing, max: nat, st: St, e: Source, es: seq<Source>, buf: seq<byte>)
    requires !st.done && 4 <= |buf| && 28 <= U(buf, 0, 4) <= max && c.beg <= c.end && st.before <= 100
    requires if FrameOf(c, st, buf).Stop? then e.ts >= c.end && FrameOf(c, st, buf).st.beyond && Expected(c, w, es) == [] && CountBefore(c, es) == 0
             else FrameOf(c, st, buf).Fail? && e.ts < c.beg && st.before + 1 > 100
    ensures Recovers(c, w, max, st, [e] + es, buf)
  {
    hide FrameOf, U, EventOf;
    assert ([e] + es)[1..] == es;
  }

  /** The header is read over, unless the name is too long for it. */
  lemma HeaderRead(st: St, name: seq<byte>, rest: seq<byte>)
    requires |name| + 8 < 0x8000_0000
    ensures HeaderFrame(st, HeaderBytes(name) + rest) == if |name| < 504 then Took(|name| + 10, st.(inHeader := false), None) else Fail
  {
    hide BE, U;
    var (n, b) := (|name| + 8, HeaderBytes(name) + rest);
    Pow256Values();
    var h := HeaderBytes(name);
    assert b[0..|h|] == h;
    assert h[0..2] == BE(0, 2) && h[2..6] == BE(n, 4) && h[n - 2..n + 2] == BE(n, 4);
    FieldOf(b, h, 0, 0, 2, 0);
    FieldOf(b, h, 0, 2, 4, n);
    FieldOf(b, h, 0, n - 2, 4, n);
  }

  /**
   Reading a generated file in one piece: the events before the end of the range, all fields
   the same, if the name fits the header and no more than 100 events come before the range;
   an error otherwise.
   */
  lemma FileIsRead(c: Conf, w: Writing, name: seq<byte>, events: seq<Source>)
    requires w.count < 0x1_0000_0000 && |name| + 8 < 0x8000_0000 && Suits(c, w) && c.beg <= c.end
    requires InTime(0, events) && AllWritable(c, w, events, NeedMinMax(c.shape))
    ensures var (max, buf) := (NeedMinMax(c.shape), FileBytes(w, name, events));
            && Regular(c, max, START, buf)
            && (Run(c, max, START, buf).ok <==> |name| < 504 && CountBefore(c, events) <= 100)
            && (Run(c, max, START, buf).ok ==>
                  Run(c, max, START, buf).events == Expected(c, w, events) && (Run(c, max, START, buf).st.beyond <==> AnyPast(c, events)))
  {
    hide HeaderBytes, AllEvents, HeaderFrame, EventFrame, Expected, CountBefore, AnyPast, AllWritable, InTime, Writable;
    var (max, buf, body) := (NeedMinMax(c.shape), FileBytes(w, name, events), AllEvents(w, events));
    HeaderRead(START, name, body);
    if |name| < 504 {
      ReadsWritten(c, w, max, START.(inHeader := false), events);
      assert buf[|name| + 10..] == body;
      assert forall x: seq<Event> :: [] + x == x;
    }
  }

  /** A generated file, cut into chunks in any way, comes out of the parser as the events that were written. */
  method ReadGenerated(input: seq<Input>, c: Conf, every: nat, w: Writing, name: seq<byte>, events: seq<Source>) returns (items: seq<Item>)
    requires 1 <= every && w.count < 0x1_0000_0000 && |name| + 8 < 0x8000_0000 && Suits(c, w) && c.beg <= c.end
    requires InTime(0, events) && AllWritable(c, w, events, NeedMinMax(c.shape))
    requires Sound(input) && Stream(input) == FileBytes(w, name, events)
    ensures Error !in items <==> |name| < 504 && CountBefore(c, events) <= 100
    ensures Error !in items ==> EventsIn(items) == Expected(c, w, events) && (RangeComplete in items <==> AnyPast(c, events))
    ensures CompleteIsLast(items)
  {
    hide Run, Regular, EventsIn, StatsIn, CompleteIsLast, Sound, Stream, FileBytes, Expected, CountBefore, AnyPast, AllWritable, InTime;
    FileIsRead(c, w, name, events);
    items := ReadFile(input, c, every, true);
  }

  /** An event longer than the parser waits for is taken, but not behind its length. */
  lemma LongEvent(c: Conf, w: Writing, max: nat, st: St, e: Source)
    requires Writable(w, e, LengthLimit(c.shape)) && Suits(c, w) && c.beg <= e.ts < c.end && c.accepts(EventOf(c, w, e))
    requires Between(c, st) && st.lastTs <= e.ts && 513 <= max < EventLength(w, e)
    ensures var whole := EventBytes(w, e) + [];
            && Run(c, max, st, whole).ok && Run(c, max, st, whole).events == [EventOf(c, w, e)]
            && !Regular(c, max, st, whole) && FailingCut(c, max, st, whole) == 4
  {
    hide EventBytes, Seen, U, EventFrame, EventOf, EventLength;
    var (whole, n) := (EventBytes(w, e) + [], EventLength(w, e));
    WrittenEvent(c, w, st, e, [], LengthLimit(c.shape));
    AfterEvent(c, st, e.ts);
    LengthOf(w, e, []);
    EventParts(w, e, []);
    assert whole[n..] == [];
    NothingYet(c, Seen(c, st, e.ts), []);
  }

  /**
   A generated event longer than the parser waits for, as first in a file: it is read if the
   file arrives in one piece, and the cut behind its length is one that fails.
   */
  lemma TooLongToWaitFor(c: Conf, w: Writing, name: seq<byte>, e: Source)
    requires Writable(w, e, LengthLimit(c.shape)) && Suits(c, w) && c.beg <= e.ts < c.end && c.accepts(EventOf(c, w, e)) && |name| < 504
    requires NeedMinMax(c.shape) < EventLength(w, e)
    ensures var (max, file) := (NeedMinMax(c.shape), FileBytes(w, name, [e]));
            && Run(c, max, START, file).ok && Run(c, max, START, file).events == [EventOf(c, w, e)]
            && !Regular(c, max, START, file) && FailingCut(c, max, START, file) == |name| + 10 + 4
  {
    hide EventBytes, HeaderBytes, HeaderFrame, EventFrame, EventOf, AllEvents, EventLength, Suits;
    var (max, file, whole) := (NeedMinMax(c.shape), FileBytes(w, name, [e]), EventBytes(w, e) + []);
    AllEventsFront(w, e, []);
    assert [e] + [] == [e] && AllEvents(w, []) == [] by { NoEvents(w); }
    HeaderRead(START, name, whole);
    assert file == HeaderBytes(name) + whole && file[|name| + 10..] == whole;
    LongEvent(c, w, max, START_AT_EVENT, e);
  }

  lemma NoEvents(w: Writing)
    requires w.count < 0x1_0000_0000
    ensures AllEvents(w, []) == []
  {}
}
