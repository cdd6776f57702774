/** The writer of data files and of their indices. */
module EventFile {
  import opened Bytes
  import opened BigEndian
  import opened EventFormat

  /** One event to be written; the payload is what follows the flags, the type and the shape. */
  datatype Source = Source(ts: nat, pulse: nat, payload: seq<byte>)

  /** How a channel is written: uncompressed scalars, or compressed waveforms. */
  datatype Writing = Writing(compression: bool, count: nat, typeIndex: byte, bigEndian: bool)

  const MARK: nat := 0xcafe_cafe
  const NONE: nat := 0xFFFF_FFFF

  // ---------- layout ----------

  function HeaderBytes(name: seq<byte>): (r: seq<byte>)
    ensures |r| == |name| + 10
  {
    BE(0, 2) + BE(|name| + 8, 4) + name + BE(|name| + 8, 4)
  }

  function FlagBytes(w: Writing): (r: seq<byte>)
    requires w.count < 0x1_0000_0000
    ensures |r| == if w.compression then 8 else 2
  {
    if w.compression then [if w.bigEndian then 0xF0 else 0xD0, w.typeIndex, 0, 1] + BE(w.count, 4)
    else [if w.bigEndian then 0x20 else 0, w.typeIndex]
  }

  /** What comes between the length in front and the length at the end. */
  function BodyBytes(w: Writing, e: Source): (r: seq<byte>)
    requires w.count < 0x1_0000_0000
    ensures |r| == 38 + |FlagBytes(w)| + |e.payload|
  {
    BE(MARK, 8) + BE(e.ts, 8) + BE(e.pulse, 8) + BE(MARK, 8) + [0, 0] + BE(NONE, 4) + FlagBytes(w) + e.payload
  }

  function EventLength(w: Writing, e: Source): nat {
    46 + (if w.compression then 8 else 2) + |e.payload|
  }

  function EventBytes(w: Writing, e: Source): (r: seq<byte>)
    requires w.count < 0x1_0000_0000
    ensures |r| == EventLength(w, e)
  {
    BE(EventLength(w, e), 4) + BodyBytes(w, e) + BE(EventLength(w, e), 4)
  }

  function AllEvents(w: Writing, events: seq<Source>): seq<byte>
    requires w.count < 0x1_0000_0000
  {
    if events == [] then [] else AllEvents(w, events[..|events| - 1]) + EventBytes(w, events[|events| - 1])
  }

  function FileBytes(w: Writing, name: seq<byte>, events: seq<Source>): seq<byte>
    requires w.count < 0x1_0000_0000
  {
    HeaderBytes(name) + AllEvents(w, events)
  }

  /** Where the last of the events starts. */
  function PlaceOfNext(w: Writing, name: seq<byte>, events: seq<Source>): nat
    requires w.count < 0x1_0000_0000
  {
    |FileBytes(w, name, events)|
  }

  /** The index: two zero bytes, then time and place of every event. */
  function IndexBytes(w: Writing, name: seq<byte>, events: seq<Source>): seq<byte>
    requires w.count < 0x1_0000_0000
  {
    if events == [] then [0, 0]
    else
      var before := events[..|events| - 1];
      IndexBytes(w, name, before) + BE(events[|events| - 1].ts, 8) + BE(PlaceOfNext(w, name, before), 8)
  }

  // ---------- writing ----------

  /** A file that counts what is written to it. */
  class CountedFile {
    var content: seq<byte>
    var bytes: nat

    ghost predicate Valid()
      reads this
    {
      bytes == |content|
    }

    constructor ()
      ensures Valid() && content == []
    {
      content, bytes := [], 0;
    }

    method WriteAll(buf: seq<byte>)
      requires Valid()
      modifies this
      ensures Valid() && content == old(content) + buf
    {
      content := content + buf;
      bytes := bytes + |buf|;
    }
  }

  method GenDatafileHeader(file: CountedFile, name: seq<byte>)
    requires file.Valid() && |name| + 8 < 0x8000_0000
    modifies file
    ensures file.Valid() && file.content == old(file.content) + HeaderBytes(name)
  {
    var len1 := |name| + 8;
    file.WriteAll(BE(0, 2) + BE(len1, 4) + name + BE(len1, 4));
  }

  /** The buffer is filled from the front; the length is appended, and then put over the mark at the front. */
  method EventBuffer(w: Writing, e: Source) returns (buf: seq<byte>)
    requires w.count < 0x1_0000_0000 && EventLength(w, e) < 0x8000_0000
    ensures buf == EventBytes(w, e)
  {
    hide BE;
    buf := BE(MARK, 4);
    buf := buf + BE(MARK, 8);
    buf := buf + BE(e.ts, 8);
    buf := buf + BE(e.pulse, 8);
    buf := buf + BE(MARK, 8);
    buf := buf + [0];
    buf := buf + [0];
    buf := buf + BE(NONE, 4);
    ghost var fields := BE(MARK, 4) + (BE(MARK, 8) + BE(e.ts, 8) + BE(e.pulse, 8) + BE(MARK, 8) + [0, 0] + BE(NONE, 4));
    assert buf == fields;
    if w.compression {
      var flags := COMPRESSION + ARRAY + SHAPE;
      if w.bigEndian { flags := flags + BIG_ENDIAN; }
      buf := buf + [flags as byte, w.typeIndex];
      buf := buf + [0, 1] + BE(w.count, 4);
    } else {
      var flags := 0;
      if w.bigEndian { flags := flags + BIG_ENDIAN; }
      buf := buf + [flags as byte, w.typeIndex];
    }
    assert buf == fields + FlagBytes(w);
    buf := buf + e.payload;
    assert buf == BE(MARK, 4) + BodyBytes(w, e);
    var len := |buf| + 4;
    buf := buf + BE(len, 4);
    buf := BE(len, 4) + buf[4..];
  }

  method GenEvent(w: Writing, file: CountedFile, index: CountedFile?, e: Source)
    requires w.count < 0x1_0000_0000 && EventLength(w, e) < 0x8000_0000
    requires file.Valid() && index != file && (index != null ==> index.Valid())
    modifies file, index
    ensures file.Valid() && file.content == old(file.content) + EventBytes(w, e)
    ensures index != null ==> index.Valid() && index.content == old(index.content) + BE(e.ts, 8) + BE(old(|file.content|), 8)
  {
    hide BE;
    var buf := EventBuffer(w, e);
    var z := file.bytes;
    file.WriteAll(buf);
    if index != null {
      index.WriteAll(BE(e.ts, 8) + BE(z, 8));
      assert old(index.content) + (BE(e.ts, 8) + BE(z, 8)) == old(index.content) + BE(e.ts, 8) + BE(z, 8);
    }
  }

  /** Time bin `bin` has the times in [bin * size, (bin + 1) * size). */
  predicate InBin(ts: nat, bin: nat, size: nat) {
    bin * size <= ts < (bin + 1) * size
  }

  predicate Ordered(events: seq<Source>) {
    forall i, j :: 0 <= i < j < |events| ==> events[i].ts < events[j].ts
  }

  /** All events are in a bin, and between two times. */
  predicate AllInBin(events: seq<Source>, bin: nat, size: nat, from: nat, to: nat) {
    forall i :: 0 <= i < |events| ==> InBin(events[i].ts, bin, size) && from <= events[i].ts < to
  }

  /** The length of every event is one that its 32 bits can hold. */
  ghost predicate Fits(w: Writing, payload: nat -> seq<byte>) {
    forall i: nat, t: nat, p: nat :: EventLength(w, Source(t, p, payload(i))) < 0x8000_0000
  }

  /** Whether a split writes the event of this number. */
  predicate Writes(weighted: bool, evix: nat, nodes: nat, split: nat)
    requires 0 < nodes
  {
    (weighted ==> evix % 20 == 0 || evix % 20 == 1) && evix % nodes == split
  }

  /** The events a split writes of the first `n`, of which event k has number evix + k. */
  function Written(evix: nat, ts: nat, pulse: nat, spacing: nat, n: nat, split: nat, nodes: nat, weighted: bool, payload: nat -> seq<byte>): seq<Source>
    requires 0 < nodes
  {
    if n == 0 then []
    else
      Written(evix, ts, pulse, spacing, n - 1, split, nodes, weighted, payload)
      + (if Writes(weighted, evix + (n - 1), nodes, split)
         then [Source(ts + (n - 1) * spacing, pulse + (n - 1), payload(evix + (n - 1)))] else [])
  }

  /** The event with some number `i` of the bin, which has the number of the split, and if weighted is one of the first two of twenty. */
  ghost predicate IsOfSplit(e: Source, evix: nat, ts: nat, pulse: nat, spacing: nat, n: nat, split: nat, nodes: nat, weighted: bool, payload: nat -> seq<byte>)
    requires 0 < nodes
  {
    exists i: nat ::
      && evix <= i < evix + n && i % nodes == split && (weighted ==> i % 20 == 0 || i % 20 == 1)
      && e == Source(ts + (i - evix) * spacing, pulse + (i - evix), payload(i))
  }

  /** Version 0, and the name from byte 6 on. */
  predicate HasName(file: seq<byte>, name: seq<byte>) {
    6 + |name| <= |file| && file[..2] == [0, 0] && file[6..6 + |name|] == name
  }

  /**
   The data file, and for waveforms the index file, of one time bin.  The file is header and
   events in order of time, all in the bin; the index has every event's time and place.
   */
  method GenTimebin(evix0: nat, ts0: nat, pulse0: nat, spacing: nat, size: nat, w: Writing, name: seq<byte>,
                    split: nat, nodes: nat, weighted: bool, payload: nat -> seq<byte>)
    returns (file: CountedFile, index: CountedFile?, evix: nat, ts: nat, pulse: nat, ghost events: seq<Source>)
    requires 0 < spacing && 0 < size && 0 < nodes && w.count < 0x1_0000_0000 && |name| + 8 < 0x8000_0000
    requires Fits(w, payload)
    ensures file.content == FileBytes(w, name, events)
    ensures HasName(file.content, name)
    ensures events == Written(evix0, ts0, pulse0, spacing, if evix >= evix0 then evix - evix0 else 0, split, nodes, weighted, payload)
    ensures forall e :: e in events <==> IsOfSplit(e, evix0, ts0, pulse0, spacing, if evix >= evix0 then evix - evix0 else 0, split, nodes, weighted, payload)
    ensures w.compression <==> index != null
    ensures index != null ==> index.content == IndexBytes(w, name, events)
    ensures Ordered(events) && AllInBin(events, ts0 / size, size, ts0, ts)
    ensures evix0 <= evix && (ts0 / size + 1) * size <= ts && (evix > evix0 ==> ts - spacing < (ts0 / size + 1) * size) && evix - evix0 == pulse - pulse0 && ts == ts0 + (evix - evix0) * spacing
  {
    hide FileBytes, IndexBytes, HeaderBytes, EventBytes, EventLength, AllEvents, Written, Writes, Ordered, AllInBin, IsOfSplit, HasName;
    var tb := ts0 / size;
    file := new CountedFile();
    index := null;
    if w.compression {
      index := new CountedFile();
      index.WriteAll([0, 0]);
    }
    GenDatafileHeader(file, name);
    events := [];
    EmptyFile(w, name);
    evix, ts, pulse := evix0, ts0, pulse0;
    var tsmax := (tb + 1) * size;
    BinStart(ts0, size, payload, evix0, pulse0, spacing, split, nodes, weighted);
    while ts < tsmax
      invariant fresh(file) && file.Valid() && file.content == FileBytes(w, name, events)
      invariant evix0 <= evix && ts == ts0 + (evix - evix0) * spacing && pulse == pulse0 + (evix - evix0)
      invariant events == Written(evix0, ts0, pulse0, spacing, evix - evix0, split, nodes, weighted, payload)
      invariant evix > evix0 ==> ts - spacing < tsmax
      invariant w.compression <==> index != null
      invariant index != null ==> fresh(index) && index != file && index.Valid() && index.content == IndexBytes(w, name, events)
      invariant Ordered(events) && AllInBin(events, tb, size, ts0, ts) && ts0 <= ts
    {
      OneWritten(events, evix0, ts0, pulse0, spacing, evix - evix0, split, nodes, weighted, payload, tb, size);
      if Writes(weighted, evix, nodes, split) {
        var e := Source(ts, pulse, payload(evix));
        NextEvent(w, name, events, e);
        GenEvent(w, file, index, e);
        events := events + [e];
      }
      evix, ts, pulse := evix + 1, ts + spacing, pulse + 1;
    }
    WrittenAre(evix0, ts0, pulse0, spacing, evix - evix0, split, nodes, weighted, payload);
    NameInFile(w, name, events);
  }

  /** The events that a split writes are, of all in the bin, those whose number it has, and when weighted also every first and second of twenty. */
  lemma {:induction false} WrittenAre(evix: nat, ts: nat, pulse: nat, spacing: nat, n: nat, split: nat, nodes: nat, weighted: bool, payload: nat -> seq<byte>)
    requires 0 < nodes
    ensures forall e :: e in Written(evix, ts, pulse, spacing, n, split, nodes, weighted, payload)
                        <==> IsOfSplit(e, evix, ts, pulse, spacing, n, split, nodes, weighted, payload)
  {
    if n > 0 {
      WrittenAre(evix, ts, pulse, spacing, n - 1, split, nodes, weighted, payload);
      var (front, j) := (Written(evix, ts, pulse, spacing, n - 1, split, nodes, weighted, payload), evix + (n - 1));
      forall e
        ensures e in Written(evix, ts, pulse, spacing, n, split, nodes, weighted, payload) <==>
          e in front || (Writes(weighted, j, nodes, split) && e == Source(ts + (j - evix) * spacing, pulse + (j - evix), payload(j)))
      {
        assert e in front <==> IsOfSplit(e, evix, ts, pulse, spacing, n - 1, split, nodes, weighted, payload);
      }
    }
  }

  /** All splits together write every event, each by one of them, if they are not weighted. */
  lemma SplitsShare(evix: nat, ts: nat, pulse: nat, spacing: nat, n: nat, nodes: nat, payload: nat -> seq<byte>, i: nat)
    requires 0 < nodes && 0 < spacing && evix <= i < evix + n
    ensures var e := Source(ts + (i - evix) * spacing, pulse + (i - evix), payload(i));
            && i % nodes < nodes
            && forall s: nat :: e in Written(evix, ts, pulse, spacing, n, s, nodes, false, payload) <==> s == i % nodes
  {
    var e := Source(ts + (i - evix) * spacing, pulse + (i - evix), payload(i));
    forall s: nat
      ensures e in Written(evix, ts, pulse, spacing, n, s, nodes, false, payload) <==> s == i % nodes
    {
      WrittenAre(evix, ts, pulse, spacing, n, s, nodes, false, payload);
    }
  }

  /** The name stands in the file from byte 6 on. */
  lemma NameInFile(w: Writing, name: seq<byte>, events: seq<Source>)
    requires w.count < 0x1_0000_0000
    ensures HasName(FileBytes(w, name, events), name)
  {
    hide AllEvents;
    var file := FileBytes(w, name, events);
    assert BE(0, 2) == [0, 0];
    assert file[..2] == BE(0, 2);
  }

  /** The event of number `evix + n`, if this split writes it, is next in order and in the bin. */
  lemma OneWritten(events: seq<Source>, evix: nat, ts: nat, pulse: nat, spacing: nat, n: nat, split: nat, nodes: nat, weighted: bool,
                   payload: nat -> seq<byte>, bin: nat, size: nat)
    requires 0 < nodes && 0 < spacing && bin * size <= ts && ts + n * spacing < (bin + 1) * size
    requires events == Written(evix, ts, pulse, spacing, n, split, nodes, weighted, payload)
    requires Ordered(events) && AllInBin(events, bin, size, ts, ts + n * spacing)
    ensures var (t, e) := (ts + n * spacing, Source(ts + n * spacing, pulse + n, payload(evix + n)));
            && t + spacing == ts + (n + 1) * spacing
            && var more := if Writes(weighted, evix + n, nodes, split) then events + [e] else events;
            && more == Written(evix, ts, pulse, spacing, n + 1, split, nodes, weighted, payload)
            && Ordered(more) && AllInBin(more, bin, size, ts, t + spacing)
  {
    hide Writes, Ordered, AllInBin;
    assert events + [] == events;
    assert bin * size <= ts + n * spacing;
    OneInOrder(events, Source(ts + n * spacing, pulse + n, payload(evix + n)), bin, size, ts, spacing);
  }

  lemma OneInOrder(events: seq<Source>, e: Source, bin: nat, size: nat, from: nat, spacing: nat)
    requires 0 < spacing && from <= e.ts && InBin(e.ts, bin, size) && Ordered(events) && AllInBin(events, bin, size, from, e.ts)
    ensures AllInBin(events, bin, size, from, e.ts + spacing)
    ensures Ordered(events + [e]) && AllInBin(events + [e], bin, size, from, e.ts + spacing)
  {
    hide InBin;
  }

  lemma BinStart(ts: nat, size: nat, payload: nat -> seq<byte>, evix: nat, pulse: nat, spacing: nat, split: nat, nodes: nat, weighted: bool)
    requires 0 < size && 0 < nodes
    ensures ts / size * size <= ts
    ensures Written(evix, ts, pulse, spacing, 0, split, nodes, weighted, payload) == [] && Ordered([]) && AllInBin([], ts / size, size, ts, ts)
  {}

  lemma EmptyFile(w: Writing, name: seq<byte>)
    requires w.count < 0x1_0000_0000
    ensures FileBytes(w, name, []) == [] + HeaderBytes(name) && IndexBytes(w, name, []) == [] + [0, 0]
  {}

  lemma NextEvent(w: Writing, name: seq<byte>, events: seq<Source>, e: Source)
    requires w.count < 0x1_0000_0000
    ensures FileBytes(w, name, events + [e]) == FileBytes(w, name, events) + EventBytes(w, e)
    ensures IndexBytes(w, name, events + [e]) == IndexBytes(w, name, events) + BE(e.ts, 8) + BE(|FileBytes(w, name, events)|, 8)
  {
    hide BE, EventBytes, HeaderBytes;
    assert (events + [e])[..|events|] == events;
    assert HeaderBytes(name) + (AllEvents(w, events) + EventBytes(w, e)) == HeaderBytes(name) + AllEvents(w, events) + EventBytes(w, e);
  }
}
