/** Which data files are opened for a range, and where each is positioned. */
module DataOpen {
  import opened Bytes
  import opened TimeSearch
  import opened IndexSearch
  import opened StaticSearch

  /** A data file, and its index if it has one. */
  datatype DataFile = DataFile(content: seq<byte>, index: Option<seq<byte>>)

  /** The data file of one time bin. */
  datatype Bin = Bin(tb: nat, file: DataFile)

  /** An opened file of bin number `bin`, positioned at `pos`. */
  datatype OpenedFile = OpenedFile(bin: nat, pos: nat)

  datatype OpenedFileSet = OpenedFileSet(timebin: nat, files: seq<OpenedFile>)

  const MAX_INDEX: nat := 1024 * 1024 * 500

  predicate IsFile(f: DataFile) {
    match f.index
    case Some(buf) => 2 <= |buf| <= MAX_INDEX && |buf| % 16 == 2
    case None => IsStaticFile(f.content)
  }

  /** The times of a file's events, from its index or its content. */
  function TimesOf(f: DataFile): seq<nat> {
    match f.index
    case Some(buf) => if |buf| < 2 then [] else Times(buf[2..])
    case None => FileTimes(f.content)
  }

  function PlaceOf(f: DataFile, i: nat): nat
    requires i < |TimesOf(f)|
  {
    match f.index
    case Some(buf) => PlaceAt(buf[2..], i)
    case None => EventPlace(f.content, i)
  }

  /** What positioning is to find: the last event before the range, or the first one in it. */
  function Target(ts: seq<nat>, beg: nat, end: nat, expandLeft: bool, expandRight: bool): (r: Option<nat>)
    ensures r.Some? ==> r.value < |ts|
  {
    if expandLeft then ScanBelow(ts, beg) else ScanGe(ts, beg, end, expandRight)
  }

  /** Some place if the file is to be read, and an error if the index or the file is not in order. */
  method PositionFile(f: DataFile, beg: nat, end: nat, expandLeft: bool, expandRight: bool) returns (r: Outcome<Option<nat>>)
    requires !(expandLeft && expandRight)
    ensures IsFile(f) ==> r.Good?
    ensures f.index.Some? ==> (r.Good? <==> 2 <= |f.index.value| <= 524288000 && |f.index.value| % 16 == 2)
    ensures r.Good? && Sorted(TimesOf(f)) && beg <= end ==>
      match Target(TimesOf(f), beg, end, expandLeft, expandRight)
      case Some(i) => r.value == Some(PlaceOf(f, i))
      case None => r.value == None
  {
    match f.index
    case Some(buf) =>
      if |buf| > MAX_INDEX { return Bad; }
      if |buf| < 2 || |buf| % 16 != 2 { return Bad; }
      r := PositionByIndex(buf[2..], beg, end, expandLeft, expandRight);
    case None =>
      r := PositionWithoutIndex(f.content, beg, end, expandLeft, expandRight);
  }

  method PositionByIndex(buf: seq<byte>, beg: nat, end: nat, expandLeft: bool, expandRight: bool) returns (r: Outcome<Option<nat>>)
    requires !(expandLeft && expandRight)
    ensures r.Good? <==> |buf| % 16 == 0
    ensures r.Good? && Sorted(Times(buf)) ==>
      match Target(Times(buf), beg, end, expandLeft, expandRight)
      case Some(i) => r.value == Some(PlaceAt(buf, i))
      case None => r.value == None
  {
    hide Times, TimeAt, PlaceAt, ScanGe, ScanBelow, Crossing, Sorted;
    var g;
    ghost var at;
    if expandLeft {
      g, at := FindLargestSmallerThan(beg, buf);
    } else {
      g, at := FindGe(beg, end, expandRight, buf);
    }
    if g.Err? { return Bad; }
    return Good(if g.value.Some? then Some(g.value.value.1) else None);
  }

  method PositionWithoutIndex(file: seq<byte>, beg: nat, end: nat, expandLeft: bool, expandRight: bool) returns (r: Outcome<Option<nat>>)
    requires !(expandLeft && expandRight)
    ensures IsStaticFile(file) ==> r.Good?
    ensures r.Good? && Sorted(FileTimes(file)) && beg <= end ==>
      match Target(FileTimes(file), beg, end, expandLeft, expandRight)
      case Some(i) => r.value == Some(EventPlace(file, i))
      case None => r.value == None
  {
    hide IsStaticFile, FileTimes, EvLen, HeadOff, Count, EventPlace, ScanGe, ScanBelow, FirstGe, Sorted;
    var p;
    ghost var at;
    if expandLeft {
      p, at := PositionStaticBelow(file, beg);
      if p.Good? && Sorted(FileTimes(file)) { CrossingIsScanBelow(FileTimes(file), beg, at); }
    } else {
      p, at := PositionStatic(file, beg, end, expandRight);
      if p.Good? && Sorted(FileTimes(file)) { AnswerIsScan(file, beg, end, expandRight, at); }
    }
    if p.Bad? { return Bad; }
    if p.Panic? { return Panic; }
    return Good(if p.value.found then Some(p.value.pos) else None);
  }
}
