/** The whole way back: a generated file is searched, read ahead in chunks from the place found, and parsed. */
module ReadBack {
  import opened Bytes
  import opened EventFormat
  import opened EventFile
  import opened EventChunker
  import opened EventRoundTrip
  import opened GeneratedIndex
  import opened GeneratedStatic
  import opened TimeSearch
  import NeedMinBuffer
  import EventReading
  import IndexSearch
  import StaticSearch
  import DataOpen
  import FileContent

  // ---------- the search ----------

  /** A data file as it is written: waveforms with their index, scalars without. */
  function Generated(w: Writing, name: seq<byte>, events: seq<Source>): DataOpen.DataFile
    requires w.count < 0x1_0000_0000
  {
    DataOpen.DataFile(FileBytes(w, name, events), if w.compression then Some(IndexBytes(w, name, events)) else None)
  }

  /** What the search asks of a file: an index of the size that is read, or scalars all of one length. */
  ghost predicate Searchable(w: Writing, name: seq<byte>, events: seq<Source>) {
    && w.count < 0x1_0000_0000 && Sorted(TimesOf(events))
    && (forall k :: 0 <= k < |events| ==> events[k].ts < 0x1_0000_0000_0000_0000)
    && if w.compression then
         |FileBytes(w, name, events)| < 0x1_0000_0000_0000_0000 && 2 + 16 * |events| <= DataOpen.MAX_INDEX
       else events != [] && IsScalarFile(w, name, events, EventLength(w, events[0]))
  }

  /** With either kind of file the search has the times of the events, and their places. */
  lemma GeneratedIsFile(w: Writing, name: seq<byte>, events: seq<Source>)
    requires Searchable(w, name, events)
    ensures var f := Generated(w, name, events);
            && DataOpen.IsFile(f) && DataOpen.TimesOf(f) == TimesOf(events)
            && forall i :: 0 <= i < |events| ==> DataOpen.PlaceOf(f, i) == PlaceOfNext(w, name, events[..i])
  {
    hide FileBytes, IndexSearch.TimeAt, IndexSearch.PlaceAt, PlaceOfNext, EventLength, StaticSearch.FileTimes, StaticSearch.EventPlace, StaticSearch.IsStaticFile;
    if w.compression {
      IndexSize(w, name, events);
      var buf := Searched(w, name, events);
      forall i | 0 <= i < |events|
        ensures |buf| == 16 * |events| && IndexSearch.Times(buf)[i] == TimesOf(events)[i]
        ensures IndexSearch.PlaceAt(buf, i) == PlaceOfNext(w, name, events[..i])
      {
        EntryOf(w, name, events, i);
      }
      assert IndexSearch.Times(buf) == TimesOf(events);
    } else {
      GeneratedIsStatic(w, name, events, EventLength(w, events[0]));
    }
  }

  // ---------- the rest of a file ----------

  lemma {:induction false} AllEventsJoin(w: Writing, a: seq<Source>, b: seq<Source>)
    requires w.count < 0x1_0000_0000
    ensures AllEvents(w, a + b) == AllEvents(w, a) + AllEvents(w, b)
    decreases |b|
  {
    hide EventBytes;
    if b == [] {
      assert a + b == a;
    } else {
      var n := |b| - 1;
      assert (a + b)[..|a + b| - 1] == a + b[..n];
      AllEventsJoin(w, a, b[..n]);
    }
  }

  /** From the place of an event on a file has the events from it on. */
  lemma RestOfFile(w: Writing, name: seq<byte>, events: seq<Source>, k: nat)
    requires w.count < 0x1_0000_0000 && k <= |events|
    ensures var (file, p) := (FileBytes(w, name, events), PlaceOfNext(w, name, events[..k]));
            p <= |file| && file[p..] == AllEvents(w, events[k..])
  {
    hide AllEvents, HeaderBytes;
    assert events == events[..k] + events[k..];
    AllEventsJoin(w, events[..k], events[k..]);
  }

  /** The chunks as the parser's input. */
  function Inputs(chunks: seq<seq<byte>>): seq<NeedMinBuffer.Input> {
    if chunks == [] then [] else Inputs(chunks[..|chunks| - 1]) + [NeedMinBuffer.Chunk(chunks[|chunks| - 1])]
  }

  lemma {:induction false} InputsStream(chunks: seq<seq<byte>>)
    ensures NeedMinBuffer.Stream(Inputs(chunks)) == FileContent.Joined(chunks) && NeedMinBuffer.Sound(Inputs(chunks))
  {
    if chunks != [] {
      var (n, last) := (|chunks| - 1, NeedMinBuffer.Chunk(chunks[|chunks| - 1]));
      InputsStream(chunks[..n]);
      NeedMinBuffer.StreamSplit(Inputs(chunks[..n]), [last]);
      assert [last][1..] == [];
    }
  }

  lemma WholePart(file: seq<byte>, p: nat)
    requires p <= |file|
    ensures FileContent.Part(file, p, |file|) == file[p..]
  {}

  // ---------- the events from the one found on ----------

  lemma {:induction false} InTimeFrom(from: nat, events: seq<Source>)
    requires Sorted(TimesOf(events)) && (events != [] ==> from <= events[0].ts)
    ensures InTime(from, events)
    decreases |events|
  {
    if events != [] {
      var rest := events[1..];
      assert TimesOf(events)[0] == events[0].ts;
      assert rest != [] ==> TimesOf(events)[1] == rest[0].ts;
      forall i, j | 0 <= i <= j < |rest|
        ensures TimesOf(rest)[i] <= TimesOf(rest)[j]
      {
        assert TimesOf(rest)[i] == TimesOf(events)[i + 1] && TimesOf(rest)[j] == TimesOf(events)[j + 1];
      }
      InTimeFrom(events[0].ts, rest);
    }
  }

  lemma SortedRest(events: seq<Source>, k: nat)
    requires Sorted(TimesOf(events)) && k <= |events|
    ensures Sorted(TimesOf(events[k..]))
  {
    var rest := events[k..];
    forall i, j | 0 <= i <= j < |rest|
      ensures TimesOf(rest)[i] <= TimesOf(rest)[j]
    {
      assert TimesOf(rest)[i] == TimesOf(events)[k + i] && TimesOf(rest)[j] == TimesOf(events)[k + j];
    }
  }

  /** From the event found on, at most one event comes before the range. */
  lemma FewBefore(c: Conf, events: seq<Source>, expandLeft: bool, expandRight: bool)
    requires Sorted(TimesOf(events)) && DataOpen.Target(TimesOf(events), c.beg, c.end, expandLeft, expandRight).Some?
    ensures var k := DataOpen.Target(TimesOf(events), c.beg, c.end, expandLeft, expandRight).value;
            k < |events| && CountBefore(c, events[k..]) <= 1
  {
    hide CountBefore, FirstGe, ScanBelow;
    var (ts, k) := (TimesOf(events), DataOpen.Target(TimesOf(events), c.beg, c.end, expandLeft, expandRight).value);
    FirstGeCrosses(ts, c.beg);
    Adjacent(ts, c.beg);
    var rest := events[k..][1..];
    CountStep(c, events[k..]);
    if rest != [] {
      assert ts[k] <= ts[k + 1] == events[k + 1].ts && rest[0] == events[k + 1];
      assert rest == events[k + 1..];
      SortedRest(events, k + 1);
      InTimeFrom(c.beg, rest);
    }
    NoneBefore(c, rest);
  }

  lemma CountStep(c: Conf, events: seq<Source>)
    requires events != []
    ensures CountBefore(c, events) <= 1 + CountBefore(c, events[1..])
  {}

  lemma NoneBefore(c: Conf, events: seq<Source>)
    requires InTime(c.beg, events)
    ensures CountBefore(c, events) == 0
  {
    PastEnd(c, Writing(false, 0, 0, false), c.beg, events);
  }

  /** Reading from a place in the middle: all events from there that come before the end of the range. */
  lemma RestIsRead(c: Conf, w: Writing, events: seq<Source>)
    requires w.count < 0x1_0000_0000 && Suits(c, w) && c.beg <= c.end && Sorted(TimesOf(events))
    requires AllWritable(c, w, events, NeedMinMax(c.shape)) && CountBefore(c, events) <= 1
    ensures var (max, buf) := (NeedMinMax(c.shape), AllEvents(w, events));
            && Regular(c, max, START_AT_EVENT, buf) && Run(c, max, START_AT_EVENT, buf).ok
            && Run(c, max, START_AT_EVENT, buf).events == Expected(c, w, events)
            && (Run(c, max, START_AT_EVENT, buf).st.beyond <==> AnyPast(c, events))
  {
    hide Run, Regular, AllEvents, Expected, AnyPast, AllWritable, CountBefore, InTime;
    InTimeFrom(0, events);
    ReadsWritten(c, w, NeedMinMax(c.shape), START_AT_EVENT, events);
  }

  lemma WritableRest(c: Conf, w: Writing, events: seq<Source>, max: nat, k: nat)
    requires AllWritable(c, w, events, max) && k <= |events|
    ensures AllWritable(c, w, events[k..], max)
  {
    hide Writable, EventOf;
  }

  /**
   A generated file is positioned for a range, read ahead from there with reads that finish in
   any order, and parsed from the event found on.  Nothing is read if there is no event to be
   found.  Otherwise no error comes, and exactly the events from the one found up to the end
   of the range, with all fields as they were written: for an expanded range from the last
   one before it, else from the first one in it.
   */
  method ReadRange(w: Writing, name: seq<byte>, events: seq<Source>, c: Conf, expandLeft: bool, expandRight: bool,
                   every: nat, queueLen: nat, bufferLen: nat, schedule: seq<set<nat>>)
    returns (pos: Option<nat>, items: seq<Item>)
    requires Searchable(w, name, events) && Suits(c, w) && c.beg <= c.end && AllWritable(c, w, events, NeedMinMax(c.shape))
    requires !(expandLeft && expandRight) && 1 <= every && 1 <= queueLen && 1 <= bufferLen
    ensures match DataOpen.Target(TimesOf(events), c.beg, c.end, expandLeft, expandRight)
            case None => pos == None && items == []
            case Some(k) =>
              && pos == Some(PlaceOfNext(w, name, events[..k]))
              && Error !in items && EventsIn(items) == Expected(c, w, events[k..]) && CompleteIsLast(items)
              && (RangeComplete in items <==> AnyPast(c, events[k..]))
  {
    hide Run, Regular, EventsIn, StatsIn, CompleteIsLast, Expected, AnyPast, AllWritable, CountBefore, FileBytes, AllEvents, PlaceOfNext,
      DataOpen.IsFile, DataOpen.TimesOf, DataOpen.PlaceOf, FileContent.Part, FileContent.Joined, NeedMinBuffer.Stream, NeedMinBuffer.Sound, Inputs,
      EventReading.FailsAtSomeCut, DataOpen.Target;
    items := [];
    var f := Generated(w, name, events);
    GeneratedIsFile(w, name, events);
    var r := DataOpen.PositionFile(f, c.beg, c.end, expandLeft, expandRight);
    pos := r.value;
    if pos.None? { return; }
    ghost var k := DataOpen.Target(TimesOf(events), c.beg, c.end, expandLeft, expandRight).value;
    FewBefore(c, events, expandLeft, expandRight);
    RestOfFile(w, name, events, k);
    SortedRest(events, k);
    WritableRest(c, w, events, NeedMinMax(c.shape), k);
    RestIsRead(c, w, events[k..]);
    var chunks := FileContent.ReadAll(f.content, pos.value, queueLen, bufferLen, schedule);
    WholePart(f.content, pos.value);
    InputsStream(chunks);
    items := EventReading.ReadFile(Inputs(chunks), c, every, false);
  }
}
