/** A generated file of scalars can be searched without an index: it is a static file with the times of its events. */
module GeneratedStatic {
  import opened Bytes
  import opened BigEndian
  import opened EventFile
  import opened StaticSearch
  import GeneratedIndex
  import Matrix
  import Sequences

  /** Scalars, written with payloads of one length, under a name that the search accepts. */
  predicate IsScalarFile(w: Writing, name: seq<byte>, events: seq<Source>, n: nat) {
    && !w.compression && w.count < 0x1_0000_0000 && 1 <= |name| <= 248 && events != [] && n <= 512
    && forall i :: 0 <= i < |events| ==> EventLength(w, events[i]) == n && events[i].ts < 0x1_0000_0000_0000_0000
  }

  /** The read buffer holds what the file has there. */
  lemma BufferHas(file: seq<byte>, pos: nat, part: seq<byte>)
    requires pos + |part| <= |file| && file[pos..pos + |part|] == part && |part| <= BUF
    ensures ReadAt(file, pos)[..|part|] == part
  {
    forall i | 0 <= i < |part|
      ensures ReadAt(file, pos)[i] == part[i]
    {
      assert file[pos..pos + |part|][i] == file[pos + i];
    }
  }

  lemma Field(b: seq<byte>, part: seq<byte>, i: nat, k: nat, value: nat)
    requires |part| <= |b| && b[..|part|] == part && i + k <= |part| && part[i..i + k] == BE(value, k) && value < Pow256(k)
    ensures FromBE(b[i..i + k]) == value
  {
    hide BE, FromBE;
    assert b[0..|part|] == b[..|part|];
    Sequences.Window(b, 0, part, i, i + k);
    ReadWritten(value, k);
  }

  /** A generated header is one that the search accepts. */
  lemma HeaderParsed(file: seq<byte>, name: seq<byte>)
    requires 1 <= |name| <= 248 && HeaderBytes(name) <= file
    ensures ParseChannelHeader(ReadAt(file, 0)) == Good(|name| + 8) && HeadOff(file) == |name| + 10
  {
    hide BE, FromBE, ReadAt;
    var (h, n, b) := (HeaderBytes(name), |name| + 8, ReadAt(file, 0));
    BufferHas(file, 0, h);
    Pow256Values();
    assert h[0..2] == BE(0, 2) && h[2..6] == BE(n, 4) && h[n - 2..n + 2] == BE(n, 4);
    Field(b, h, 0, 2, 0);
    Field(b, h, 2, 4, n);
    Field(b, h, n - 2, 4, n);
  }

  lemma EventEnds(w: Writing, e: Source)
    requires w.count < 0x1_0000_0000
    ensures var (b, n) := (EventBytes(w, e), EventLength(w, e)); b[0..4] == BE(n, 4) && b[n - 4..n] == BE(n, 4) && b[12..20] == BE(e.ts, 8)
  {
    hide BE, FlagBytes;
  }

  /** A generated event is one that the search accepts. */
  lemma EventParsed(file: seq<byte>, pos: nat, w: Writing, e: Source, n: nat)
    requires w.count < 0x1_0000_0000 && EventLength(w, e) == n <= 512 && e.ts < 0x1_0000_0000_0000_0000
    requires pos + n <= |file| && file[pos..pos + n] == EventBytes(w, e)
    ensures ReadEventAt(file, pos) == Good((n, e.ts))
  {
    hide BE, FromBE, ReadAt, EventBytes;
    var (part, b) := (EventBytes(w, e), ReadAt(file, pos));
    BufferHas(file, pos, part);
    Pow256Values();
    EventEnds(w, e);
    Field(b, part, 0, 4, n);
    Field(b, part, n - 4, 4, n);
    Field(b, part, 12, 8, e.ts);
  }

  lemma OneMore(k: nat, n: nat)
    ensures (k + 1) * n == k * n + n
  {}

  lemma {:induction false} AllEventsLength(w: Writing, events: seq<Source>, n: nat)
    requires w.count < 0x1_0000_0000 && forall i :: 0 <= i < |events| ==> EventLength(w, events[i]) == n
    ensures |AllEvents(w, events)| == |events| * n
  {
    hide EventLength, EventBytes;
    if events != [] {
      AllEventsLength(w, events[..|events| - 1], n);
      OneMore(|events| - 1, n);
    }
  }

  lemma PlaceIs(w: Writing, name: seq<byte>, events: seq<Source>, n: nat, i: nat)
    requires IsScalarFile(w, name, events, n) && i <= |events|
    ensures PlaceOfNext(w, name, events[..i]) == |name| + 10 + i * n
  {
    hide HeaderBytes, EventLength;
    AllEventsLength(w, events[..i], n);
  }

  lemma LongEnough(w: Writing, e: Source)
    ensures 48 <= EventLength(w, e)
  {}

  /** Event i stands where the search looks for it, and has its time. */
  lemma EventFound(w: Writing, name: seq<byte>, events: seq<Source>, n: nat, i: nat)
    requires IsScalarFile(w, name, events, n) && i < |events|
    ensures ReadEventAt(FileBytes(w, name, events), PlaceOfNext(w, name, events[..i])) == Good((n, events[i].ts))
  {
    hide FileBytes, EventBytes, ReadEventAt, PlaceOfNext;
    GeneratedIndex.EventInFile(w, name, events, i);
    EventParsed(FileBytes(w, name, events), PlaceOfNext(w, name, events[..i]), w, events[i], n);
  }

  /**
   A generated scalar file is a static file; its events are at the places and have the times
   with which they were written.
   */
  lemma GeneratedIsStatic(w: Writing, name: seq<byte>, events: seq<Source>, n: nat)
    requires IsScalarFile(w, name, events, n)
    ensures var file := FileBytes(w, name, events);
            && IsStaticFile(file) && FileTimes(file) == GeneratedIndex.TimesOf(events)
            && forall i :: 0 <= i < |events| ==> EventPlace(file, i) == PlaceOfNext(w, name, events[..i])
  {
    hide HeaderBytes, EventBytes, AllEvents, ReadEventAt, ParseChannelHeader, ReadAt, EventLength;
    var file := FileBytes(w, name, events);
    assert HeaderBytes(name) <= file;
    HeaderParsed(file, name);
    EventFound(w, name, events, n, 0);
    PlaceIs(w, name, events, n, 0);
    LongEnough(w, events[0]);
    assert EvLen(file) == n;
    AllEventsLength(w, events, n);
    Matrix.AtSplit(|events|, n, 0);
    assert Count(file) == |events|;
    forall i | 0 <= i < |events|
      ensures ReadEventAt(file, EventPlace(file, i)) == Good((n, events[i].ts)) && EventPlace(file, i) == PlaceOfNext(w, name, events[..i])
    {
      EventFound(w, name, events, n, i);
      PlaceIs(w, name, events, n, i);
    }
  }
}
