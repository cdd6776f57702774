/** Searching a data file whose events all have the same length, without an index. */
module StaticSearch {
  import opened Bytes
  import opened BigEndian
  import opened TimeSearch
  import opened IndexSearch
  import Matrix

  datatype Outcome<+T> = Good(value: T) | Bad | Panic

  // ---------- reading ----------

  /** File version 0, the header length, the header, and the header length again at its end. */
  function ParseChannelHeader(buf: seq<byte>): (r: Outcome<nat>)
    ensures r.Good? ==> 9 <= r.value <= 256 && 2 + r.value <= |buf|
    ensures r.Good? ==> FromBE(buf[0..2]) == 0 && FromBE(buf[2..6]) == r.value == FromBE(buf[r.value - 2..r.value + 2])
    ensures !r.Panic?
    ensures forall n :: 9 <= n <= 256 && n + 2 <= |buf| && FromBE(buf[0..2]) == 0 && FromBE(buf[2..6]) == n == FromBE(buf[n - 2..n + 2]) ==>
              r == Good(n)
  {
    if |buf| < 6 then Bad
    else if FromBE(buf[0..2]) != 0 then Bad
    else
      var len1 := FromBE(buf[2..6]);
      if len1 < 9 || len1 > 256 then Bad
      else if |buf| < 2 + len1 then Bad
      else if FromBE(buf[2 + len1 - 4..2 + len1]) != len1 then Bad
      else Good(len1)
  }

  /** Length, time stamp. */
  function ParseEvent(buf: seq<byte>): (r: Outcome<(nat, nat)>)
    ensures r.Good? ==> 9 <= r.value.0 <= 512 && r.value.0 <= |buf| && 20 <= |buf|
    ensures r.Good? ==> FromBE(buf[0..4]) == r.value.0 == FromBE(buf[r.value.0 - 4..r.value.0]) && r.value.1 == FromBE(buf[12..20])
    ensures forall n :: 9 <= n <= 512 && n <= |buf| && FromBE(buf[0..4]) == n == FromBE(buf[n - 4..n]) ==>
              r == if |buf| < 20 then Panic else Good((n, FromBE(buf[12..20])))
    ensures r.Panic? ==> 9 <= |buf| < 20
  {
    if |buf| < 4 then Bad
    else
      var len1 := FromBE(buf[0..4]);
      if len1 < 9 || len1 > 512 then Bad
      else if |buf| < len1 then Bad
      else if FromBE(buf[len1 - 4..len1]) != len1 then Bad
      else if |buf| < 20 then Panic
      else Good((len1, FromBE(buf[12..20])))
  }

  const BUF: nat := 1024

  /** The read buffer after reading at `pos`: what the file has there, then zeros. */
  function ReadAt(file: seq<byte>, pos: nat): (b: seq<byte>)
    ensures |b| == 1024
  {
    seq(BUF, i requires 0 <= i < BUF => if pos + i < |file| then file[pos + i] else 0)
  }

  /** A whole buffer where the file has so much, else its end and zeros. */
  lemma ReadAtIs(file: seq<byte>, pos: nat)
    requires pos <= |file|
    ensures var n := |file| - pos;
            ReadAt(file, pos) == if 1024 <= n then file[pos..pos + 1024] else file[pos..] + seq(1024 - n, _ => 0)
  {}

  function ReadEventAt(file: seq<byte>, pos: nat): (r: Outcome<(nat, nat)>)
    ensures !r.Panic?
  {
    ParseEvent(ReadAt(file, pos))
  }

  /** An event is parsed the same from any buffer that has its first 512 bytes. */
  lemma ParsedAlike(a: seq<byte>, b: seq<byte>)
    requires 512 <= |a| && 512 <= |b| && a[..512] == b[..512]
    ensures ParseEvent(a) == ParseEvent(b)
  {
    hide FromBE;
    assert forall i, j {:trigger a[i..j]} :: 0 <= i <= j <= 512 ==> a[i..j] == a[..512][i..j];
    assert forall i, j {:trigger b[i..j]} :: 0 <= i <= j <= 512 ==> b[i..j] == b[..512][i..j];
  }

  // ---------- well-formed files ----------

  /** Where the first event starts. */
  function HeadOff(file: seq<byte>): nat {
    var h := ParseChannelHeader(ReadAt(file, 0));
    if h.Good? then 2 + h.value else 0
  }

  function EvLen(file: seq<byte>): (n: nat)
    ensures 0 < n
  {
    var ev := ReadEventAt(file, HeadOff(file));
    if ev.Good? then ev.value.0 else 1
  }

  /** The whole events in the file; a piece of another may follow them. */
  function Count(file: seq<byte>): nat {
    if HeadOff(file) <= |file| then (|file| - HeadOff(file)) / EvLen(file) else 0
  }

  function EventPlace(file: seq<byte>, i: nat): nat {
    HeadOff(file) + i * EvLen(file)
  }

  predicate IsEventAt(file: seq<byte>, pos: nat, evlen: nat) {
    var ev := ReadEventAt(file, pos);
    ev.Good? && ev.value.0 == evlen
  }

  function TimeOfEvent(file: seq<byte>, i: nat): nat {
    var ev := ReadEventAt(file, EventPlace(file, i));
    if ev.Good? then ev.value.1 else 0
  }

  /** A header, then at least one event, all of one length. */
  predicate IsStaticFile(file: seq<byte>) {
    && ParseChannelHeader(ReadAt(file, 0)).Good?
    && 0 < Count(file)
    && forall i :: 0 <= i < Count(file) ==> IsEventAt(file, EventPlace(file, i), EvLen(file))
  }

  function FileTimes(file: seq<byte>): (ts: seq<nat>)
    ensures |ts| == Count(file)
  {
    seq(Count(file), i requires 0 <= i < Count(file) => TimeOfEvent(file, i))
  }

  // ---------- searching ----------

  /** Whether events are to be read, how many reads it took to find out, and where the file is positioned. */
  datatype Position = Position(found: bool, nreads: nat, pos: nat)

  /** Header and event length, the place of the last event, the times of the first and of the last. */
  datatype Bounds = Bounds(headoff: nat, evlen: nat, last: nat, x: nat, y: nat)

  /** Header and first event come with the first read, the last event with the second. */
  method Ends(file: seq<byte>) returns (r: Outcome<Bounds>)
    ensures IsStaticFile(file) ==> r.Good?
    ensures r.Good? ==>
      && 0 < Count(file)
      && r.value == Bounds(HeadOff(file), EvLen(file), EventPlace(file, Count(file) - 1),
                           TimeOfEvent(file, 0), TimeOfEvent(file, Count(file) - 1))
  {
    hide ParseEvent, ParseChannelHeader, ReadAt;
    var buf := ReadAt(file, 0);
    var hres := ParseChannelHeader(buf);
    if !hres.Good? { return Bad; }
    var headoff := 2 + hres.value;
    FirstEvent(file, headoff);
    StaticEvent(file, 0);
    var ev := ParseEvent(buf[headoff..]);
    if !ev.Good? { return Bad; }
    var evlen := ev.value.0;
    assert EventPlace(file, 0) == headoff;
    if |file| < headoff || (|file| - headoff) / evlen == 0 { return Panic; }
    ghost var n := (|file| - headoff) / evlen;
    var k := ((|file| - headoff) / evlen - 1) * evlen + headoff;
    assert k == EventPlace(file, n - 1);
    StaticEvent(file, n - 1);
    var t := ReadEventAt(file, k);
    if !t.Good? || t.value.0 != evlen { return Bad; }
    return Good(Bounds(headoff, evlen, k, ev.value.1, t.value.1));
  }

  /** The first event is found in what was read for the header. */
  lemma FirstEvent(file: seq<byte>, headoff: nat)
    requires headoff <= 258
    ensures ParseEvent(ReadAt(file, 0)[headoff..]) == ReadEventAt(file, headoff)
  {
    hide ParseEvent;
    var a, b := ReadAt(file, 0)[headoff..], ReadAt(file, headoff);
    forall i | 0 <= i < 512
      ensures a[..512][i] == b[..512][i]
    {
      assert a[i] == ReadAt(file, 0)[headoff + i];
    }
    ParsedAlike(a, b);
  }

  lemma StaticEvent(file: seq<byte>, i: nat)
    ensures IsStaticFile(file) && i < Count(file) ==> IsEventAt(file, EventPlace(file, i), EvLen(file))
  {}

  // ---------- halving in bytes ----------

  /** Half the gap between two events, in bytes, is half the gap in events. */
  lemma HalfWay(evlen: nat, d: nat)
    requires 0 < evlen
    ensures d * evlen / 2 / evlen == d / 2 && d * evlen % evlen == 0 && (d * evlen < 2 * evlen <==> d < 2)
  {
    var (h, odd) := (d / 2, d % 2);
    Matrix.AtSplit(d, evlen, 0);
    Doubled(h, odd, evlen);
    Matrix.AtSplit(h, evlen, odd * evlen / 2);
    Matrix.MulMonotone(2, d, evlen);
    Matrix.MulMonotone(d, 1, evlen);
  }

  lemma Doubled(h: nat, odd: nat, evlen: nat)
    requires odd < 2 && 0 < evlen
    ensures (2 * h + odd) * evlen / 2 == h * evlen + odd * evlen / 2 && odd * evlen / 2 < evlen
  {
    assert (2 * h + odd) * evlen == 2 * (h * evlen) + odd * evlen;
    assert odd * evlen == if odd == 0 then 0 else evlen;
  }

  /** The event half way between events `a` and `b`. */
  method Probe(file: seq<byte>, evlen: nat, ghost a: nat, ghost b: nat, j: nat, k: nat) returns (r: Outcome<(nat, nat)>, ghost h: nat)
    requires a + 2 <= b < Count(file) && evlen == EvLen(file) && j == EventPlace(file, a) && k == EventPlace(file, b)
    ensures a < h < b && CeilLog2(h - a) + 1 <= CeilLog2(b - a) && CeilLog2(b - h) + 1 <= CeilLog2(b - a)
    ensures r.Good? ==> r.value == (EventPlace(file, h), TimeOfEvent(file, h))
    ensures IsStaticFile(file) ==> r.Good?
  {
    hide ParseEvent, ReadEventAt, IsStaticFile, EvLen, HeadOff, Count, CeilLog2;
    ghost var d := b - a;
    assert k - j == d * evlen by { Gap(a, b, evlen); }
    HalfWay(evlen, d);
    h := a + d / 2;
    var m := j + (k - j) / 2 / evlen * evlen;
    assert m == EventPlace(file, h) by { Gap(a, h, evlen); }
    HalvingSaves(d, d / 2);
    HalvingSaves(d, d - d / 2);
    assert b - h == d - d / 2;
    StaticEvent(file, h);
    var t := ReadEventAt(file, m);
    if !t.Good? || t.value.0 != evlen { return Bad, h; }
    return Good((m, t.value.1)), h;
  }

  lemma Gap(a: nat, b: nat, evlen: nat)
    requires a <= b
    ensures b * evlen == a * evlen + (b - a) * evlen
  {}

  /** The answer: the end of the range is looked at first, then where the times cross its start, at `k`. */
  function AnswerGe(file: seq<byte>, end: nat, expand: bool, k: nat): (bool, nat)
    requires 0 < Count(file) && k <= Count(file)
  {
    var ts := FileTimes(file);
    if end <= ts[0] then (expand, if expand then EventPlace(file, 0) else 0)
    else
      match Pick(ts, end, expand, k)
      case Some(i) => (true, EventPlace(file, i))
      case None => (false, if k == |ts| then EventPlace(file, 0) else 0)
  }

  /** The search so far: between events `a` and `b` the times pass `beg`. */
  ghost predicate Between(file: seq<byte>, beg: nat, a: nat, b: nat, j: nat, k: nat, x: nat, y: nat, nreads: nat) {
    && a < b < Count(file) && j == EventPlace(file, a) && k == EventPlace(file, b)
    && x == TimeOfEvent(file, a) < beg <= y == TimeOfEvent(file, b)
    && nreads + CeilLog2(b - a) <= 2 + CeilLog2(Count(file))
  }

  lemma Gaps(file: seq<byte>, a: nat, b: nat)
    requires a <= b
    ensures var g := EventPlace(file, b) - EventPlace(file, a);
            && 0 <= g && g % EvLen(file) == 0 && (g < 2 * EvLen(file) <==> b - a < 2)
  {
    hide HeadOff, EvLen;
    Gap(a, b, EvLen(file));
    HalfWay(EvLen(file), b - a);
  }

  /** The loop both searches share, up to the answer they take from where it ends. */
  method Narrow(file: seq<byte>, beg: nat, evlen: nat, j0: nat, k0: nat, x0: nat, y0: nat)
    returns (ok: bool, j: nat, k: nat, y: nat, nreads: nat, ghost at: nat)
    requires evlen == EvLen(file) && 0 < Count(file) && j0 == EventPlace(file, 0) && k0 == EventPlace(file, Count(file) - 1)
    requires x0 == TimeOfEvent(file, 0) < beg <= y0 == TimeOfEvent(file, Count(file) - 1)
    ensures IsStaticFile(file) ==> ok
    ensures ok ==>
      && 0 < at < Count(file) && Crossing(FileTimes(file), beg, at) && nreads <= 2 + CeilLog2(Count(file))
      && j == EventPlace(file, at - 1) && k == EventPlace(file, at) && y == TimeOfEvent(file, at)
  {
    hide IsStaticFile, EvLen, HeadOff, Count, CeilLog2, TimeOfEvent, EventPlace, ReadEventAt;
    var x: nat;
    ok, j, k, x, y, nreads, at := true, j0, k0, x0, y0, 2, Count(file) - 1;
    ghost var a: nat := 0;
    CeilLog2Monotone(at, Count(file));
    while true
      invariant ok && Between(file, beg, a, at, j, k, x, y, nreads)
      decreases at - a
    {
      Gaps(file, a, at);
      assert x < y;
      assert (k - j) % evlen == 0;
      if k - j < 2 * evlen { return; }
      var t;
      ghost var h;
      t, h := Probe(file, evlen, a, at, j, k);
      if !t.Good? { ok := false; return; }
      nreads := nreads + 1;
      var (m, e) := t.value;
      if e < beg { j, x, a := m, e, h; } else { k, y, at := m, e, h; }
    }
  }

  /**
   Positions the file at the first event at or after `beg`.  The assertions of the source hold
   on every file, and the number of reads is logarithmic.
   */
  method PositionStatic(file: seq<byte>, beg: nat, end: nat, expand: bool) returns (r: Outcome<Position>, ghost at: nat)
    ensures IsStaticFile(file) ==> r.Good?
    ensures r.Good? ==>
      && 0 < Count(file) && at <= Count(file) && (FileTimes(file)[0] < end ==> Crossing(FileTimes(file), beg, at))
      && (r.value.found, r.value.pos) == AnswerGe(file, end, expand, at)
      && r.value.nreads <= 2 + CeilLog2(Count(file))
  {
    hide IsStaticFile, EvLen, HeadOff, Count, CeilLog2, TimeOfEvent;
    at := 0;
    var ends := Ends(file);
    if !ends.Good? { r := if ends.Bad? then Bad else Panic; return; }
    var Bounds(j, evlen, k, x, y) := ends.value;
    assert j == EventPlace(file, 0);
    ghost var n := Count(file);
    if x >= end {
      if expand { return Good(Position(true, 2, j)), at; } else { return Good(Position(false, 2, 0)), at; }
    }
    if y < beg { return Good(Position(false, 2, j)), n; }
    if x >= beg {
      // x < end is known here, so the answer "not found" beside this one is never given
      assert x < end || expand;
      return Good(Position(true, 2, j)), 0;
    }
    var ok, nreads;
    ok, j, k, y, nreads, at := Narrow(file, beg, evlen, j, k, x, y);
    if !ok { return Bad, at; }
    if y < end || expand { return Good(Position(true, nreads, k)), at; } else { return Good(Position(false, nreads, 0)), at; }
  }

  /** Positions the file at the last event before `beg`. */
  method PositionStaticBelow(file: seq<byte>, beg: nat) returns (r: Outcome<Position>, ghost at: nat)
    ensures IsStaticFile(file) ==> r.Good?
    ensures r.Good? ==>
      && 0 < Count(file) && Crossing(FileTimes(file), beg, at)
      && r.value.found == (at > 0) && r.value.pos == EventPlace(file, if at > 0 then at - 1 else 0)
      && r.value.nreads <= 2 + CeilLog2(Count(file))
  {
    hide IsStaticFile, EvLen, HeadOff, Count, CeilLog2, TimeOfEvent, EventPlace;
    at := 0;
    var ends := Ends(file);
    if !ends.Good? { r := if ends.Bad? then Bad else Panic; return; }
    var Bounds(headoff, evlen, last, x, y) := ends.value;
    FirstPlace(file);
    if x >= beg { return Good(Position(false, 2, headoff)), 0; }
    if y < beg { return Good(Position(true, 2, last)), Count(file); }
    var ok, j, k, z, nreads;
    ok, j, k, z, nreads, at := Narrow(file, beg, evlen, headoff, last, x, y);
    if !ok { return Bad, at; }
    return Good(Position(true, nreads, j)), at;
  }

  lemma FirstPlace(file: seq<byte>)
    ensures EventPlace(file, 0) == HeadOff(file)
  {}

  // ---------- both searches agree ----------

  /**
   On an ordered file the search without an index finds what the scan finds, and so what the
   index finds, unless the whole file lies between the end and the start of a reversed range.
   */
  lemma AnswerIsScan(file: seq<byte>, beg: nat, end: nat, expand: bool, at: nat)
    requires 0 < Count(file) && Sorted(FileTimes(file)) && at <= Count(file)
    requires FileTimes(file)[0] < end ==> Crossing(FileTimes(file), beg, at)
    ensures var ts := FileTimes(file); var (found, pos) := AnswerGe(file, end, expand, at);
            (match ScanGe(ts, beg, end, expand)
             case Some(i) => found && pos == EventPlace(file, i)
             case None => !found) <==> !(expand && end <= ts[0] < beg)
  {
    hide Count, HeadOff, EvLen, FileTimes;
    var ts := FileTimes(file);
    FirstGeCrosses(ts, beg);
    var k := FirstGe(ts, beg);
    if ts[0] < end {
      CrossingIsFirstGe(ts, beg, at);
    } else if k < |ts| {
      assert ts[0] <= ts[k];
      Places(file, 0, k);
    }
  }

  lemma Places(file: seq<byte>, a: nat, b: nat)
    ensures EventPlace(file, a) == EventPlace(file, b) <==> a == b
  {
    hide HeadOff, EvLen;
    var e := EvLen(file);
    Matrix.AtSplit(a, e, 0);
    Matrix.AtSplit(b, e, 0);
  }

  /** The index that belongs to a file: the times and places of its events. */
  predicate IsIndexOf(buf: seq<byte>, file: seq<byte>) {
    && |buf| == N * Count(file) && Times(buf) == FileTimes(file)
    && forall i :: 0 <= i < Count(file) ==> PlaceAt(buf, i) == EventPlace(file, i)
  }

  /** Searching the index and searching the file give the same event, at or after the start and before it. */
  method BothSearches(buf: seq<byte>, file: seq<byte>, beg: nat, end: nat, expand: bool)
    returns (ge: Option<(nat, nat)>, below: Option<(nat, nat)>, p: Position, q: Position)
    requires IsStaticFile(file) && Sorted(FileTimes(file)) && IsIndexOf(buf, file) && beg <= end
    ensures p.found == ge.Some? && (p.found ==> p.pos == ge.value.1 && beg <= ge.value.0)
    ensures q.found == below.Some? && (q.found ==> q.pos == below.value.1 && below.value.0 < beg)
    ensures below.Some? && ge.Some? ==> ge.value.1 == below.value.1 + EvLen(file)
    ensures p.nreads <= 2 + CeilLog2(Count(file)) && q.nreads <= 2 + CeilLog2(Count(file))
  {
    hide IsStaticFile, EvLen, HeadOff, Count, CeilLog2, FirstGe, ScanBelow, FromBE;
    ghost var at, at1, at2, at3;
    var r1, r2, r3, r4;
    r1, at := FindGe(beg, end, expand, buf);
    r2, at1 := FindLargestSmallerThan(beg, buf);
    r3, at2 := PositionStatic(file, beg, end, expand);
    r4, at3 := PositionStaticBelow(file, beg);
    ge, below, p, q := r1.value, r2.value, r3.value, r4.value;
    CrossingIsFirstGe(FileTimes(file), beg, at);
    CrossingIsFirstGe(FileTimes(file), beg, at1);
    CrossingIsFirstGe(FileTimes(file), beg, at3);
    AnswerIsScan(file, beg, end, expand, at2);
  }
}
