/** The index that is written beside a data file leads the search to the events in the file. */
module GeneratedIndex {
  import opened Bytes
  import opened BigEndian
  import opened TimeSearch
  import opened IndexSearch
  import opened EventFile
  import Sequences

  /** The index as it is searched: without its first two bytes. */
  function Searched(w: Writing, name: seq<byte>, events: seq<Source>): seq<byte>
    requires w.count < 0x1_0000_0000
  {
    IndexBytes(w, name, events)[2..]
  }

  function TimesOf(events: seq<Source>): (r: seq<nat>)
    ensures |r| == |events|
  {
    seq(|events|, i requires 0 <= i < |events| => events[i].ts)
  }

  lemma {:induction false} IndexSize(w: Writing, name: seq<byte>, events: seq<Source>)
    requires w.count < 0x1_0000_0000
    ensures |IndexBytes(w, name, events)| == 2 + 16 * |events|
  {
    if events != [] { IndexSize(w, name, events[..|events| - 1]); }
  }

  /** An index with one event more. */
  lemma SearchedMore(w: Writing, name: seq<byte>, events: seq<Source>)
    requires w.count < 0x1_0000_0000 && events != []
    ensures var (n, front) := (|events| - 1, events[..|events| - 1]);
            && |Searched(w, name, front)| == 16 * n
            && Searched(w, name, events) == Searched(w, name, front) + (BE(events[n].ts, 8) + BE(PlaceOfNext(w, name, front), 8))
  {
    hide BE, PlaceOfNext;
    var (n, front) := (|events| - 1, events[..|events| - 1]);
    IndexSize(w, name, front);
    var (a, b, c) := (IndexBytes(w, name, front), BE(events[n].ts, 8), BE(PlaceOfNext(w, name, front), 8));
    assert IndexBytes(w, name, events) == a + b + c;
    assert (a + b + c)[2..] == a[2..] + (b + c);
  }

  lemma EntryPrefix(a: seq<byte>, b: seq<byte>, i: nat)
    requires 16 * (i + 1) <= |a|
    ensures TimeAt(a + b, i) == TimeAt(a, i) && PlaceAt(a + b, i) == PlaceAt(a, i)
  {
    hide FromBE;
    assert (a + b)[16 * i..16 * i + 8] == a[16 * i..16 * i + 8];
    assert (a + b)[16 * i + 8..16 * i + 16] == a[16 * i + 8..16 * i + 16];
  }

  lemma EntryLast(a: seq<byte>, n: nat, ts: nat, place: nat)
    requires |a| == 16 * n && ts < 0x1_0000_0000_0000_0000 && place < 0x1_0000_0000_0000_0000
    ensures var buf := a + (BE(ts, 8) + BE(place, 8)); |buf| == 16 * (n + 1) && TimeAt(buf, n) == ts && PlaceAt(buf, n) == place
  {
    hide BE, FromBE;
    Pow256Values();
    ReadWritten(ts, 8);
    ReadWritten(place, 8);
    var (b, c) := (BE(ts, 8), BE(place, 8));
    var buf := a + (b + c);
    assert buf[16 * n..16 * n + 8] == b;
    assert buf[16 * n + 8..16 * n + 16] == c;
  }

  /** Entry `i` has the time of event `i` and the place where the file stood before it was written. */
  lemma {:induction false} EntryOf(w: Writing, name: seq<byte>, events: seq<Source>, i: nat)
    requires w.count < 0x1_0000_0000 && i < |events| && |FileBytes(w, name, events)| < 0x1_0000_0000_0000_0000
    requires forall k :: 0 <= k < |events| ==> events[k].ts < 0x1_0000_0000_0000_0000
    ensures var buf := Searched(w, name, events);
            |buf| == 16 * |events| && TimeAt(buf, i) == events[i].ts && PlaceAt(buf, i) == PlaceOfNext(w, name, events[..i])
    decreases |events|
  {
    hide BE, FromBE, TimeAt, PlaceAt, FileBytes, Searched;
    var (n, front) := (|events| - 1, events[..|events| - 1]);
    SearchedMore(w, name, events);
    FilePrefix(w, name, events, n);
    EntryLast(Searched(w, name, front), n, events[n].ts, PlaceOfNext(w, name, front));
    if i < n {
      EntryOf(w, name, front, i);
      assert front[..i] == events[..i];
      EntryPrefix(Searched(w, name, front), BE(events[n].ts, 8) + BE(PlaceOfNext(w, name, front), 8), i);
    }
  }

  /** A file begins with the file of its first events. */
  lemma {:induction false} FilePrefix(w: Writing, name: seq<byte>, events: seq<Source>, i: nat)
    requires w.count < 0x1_0000_0000 && i <= |events|
    ensures FileBytes(w, name, events[..i]) <= FileBytes(w, name, events)
    decreases |events|
  {
    hide EventBytes, HeaderBytes, FileBytes;
    if i == |events| {
      assert events[..i] == events;
    } else {
      var (n, front) := (|events| - 1, events[..|events| - 1]);
      assert events == front + [events[n]];
      NextEvent(w, name, front, events[n]);
      FilePrefix(w, name, front, i);
      assert front[..i] == events[..i];
    }
  }

  /** Event `i` stands in the file at its place. */
  lemma EventInFile(w: Writing, name: seq<byte>, events: seq<Source>, i: nat)
    requires w.count < 0x1_0000_0000 && i < |events|
    ensures var (p, file, e) := (PlaceOfNext(w, name, events[..i]), FileBytes(w, name, events), EventBytes(w, events[i]));
            p + |e| <= |file| && file[p..p + |e|] == e
  {
    hide EventBytes, HeaderBytes, FileBytes;
    FilePrefix(w, name, events, i + 1);
    assert events[..i + 1] == events[..i] + [events[i]];
    NextEvent(w, name, events[..i], events[i]);
    var (a, e, file) := (FileBytes(w, name, events[..i]), EventBytes(w, events[i]), FileBytes(w, name, events));
    assert file[..|a + e|] == a + e;
    assert file[|a|..|a + e|] == (a + e)[|a|..];
  }

  /** Searching the index of a generated file gives the place in the file where the event stands that a scan finds. */
  method FindInGenerated(w: Writing, name: seq<byte>, events: seq<Source>, beg: nat, end: nat, expand: bool)
    returns (r: Result<Option<(nat, nat)>>)
    requires w.count < 0x1_0000_0000 && |FileBytes(w, name, events)| < 0x1_0000_0000_0000_0000
    requires Sorted(TimesOf(events)) && forall k :: 0 <= k < |events| ==> events[k].ts < 0x1_0000_0000_0000_0000
    ensures r.Ok?
    ensures match ScanGe(TimesOf(events), beg, end, expand)
            case None => r.value == None
            case Some(k) =>
              var (file, e) := (FileBytes(w, name, events), EventBytes(w, events[k]));
              && r.value.Some? && r.value.value.0 == events[k].ts
              && var p := r.value.value.1; p + |e| <= |file| && file[p..p + |e|] == e
  {
    hide TimeAt, PlaceAt, FileBytes, EventBytes, Searched, ScanGe, PlaceOfNext;
    var buf := Searched(w, name, events);
    IndexLength(w, name, events);
    forall i | 0 <= i < |events|
      ensures Times(buf)[i] == TimesOf(events)[i]
    {
      EntryOf(w, name, events, i);
    }
    assert Times(buf) == TimesOf(events);
    ghost var at;
    r, at := FindGe(beg, end, expand, buf);
    ghost var k := ScanGe(TimesOf(events), beg, end, expand);
    if k.Some? {
      EntryOf(w, name, events, k.value);
      EventInFile(w, name, events, k.value);
    }
  }

  lemma IndexLength(w: Writing, name: seq<byte>, events: seq<Source>)
    requires w.count < 0x1_0000_0000
    ensures |Searched(w, name, events)| == 16 * |events|
  {
    IndexSize(w, name, events);
  }
}
