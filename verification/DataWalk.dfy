/** The walk over the time bins: the files of a range, and the range expanded by the event before it. */
module DataWalk {
  import opened Bytes
  import opened TimeSearch
  import opened StaticSearch
  import opened DataOpen

  // ---------- bins ----------

  /** Bins in order, each file with events, in order, all in their bin. */
  ghost predicate WellFormed(bins: seq<Bin>, bs: nat) {
    && 0 < bs
    && (forall i, j :: 0 <= i < j < |bins| ==> bins[i].tb < bins[j].tb)
    && (forall i :: 0 <= i < |bins| ==> InOrder(bins[i], bs))
  }

  ghost predicate InOrder(b: Bin, bs: nat) {
    var ts := TimesOf(b.file);
    && IsFile(b.file) && 0 < |ts| && Sorted(ts)
    && forall k :: 0 <= k < |ts| ==> b.tb * bs <= ts[k] < b.tb * bs + bs
  }

  /** The events of all bins, one after the other. */
  function AllTimes(bins: seq<Bin>): seq<nat> {
    if bins == [] then [] else AllTimes(bins[..|bins| - 1]) + TimesOf(bins[|bins| - 1].file)
  }

  lemma {:induction false} AllTimesJoin(a: seq<Bin>, b: seq<Bin>)
    ensures AllTimes(a + b) == AllTimes(a) + AllTimes(b)
    decreases |b|
  {
    hide TimesOf;
    if b == [] {
      assert a + b == a && AllTimes(a) + [] == AllTimes(a);
    } else {
      var (n, t) := (|b| - 1, TimesOf(b[|b| - 1].file));
      assert (a + b)[..|a + b| - 1] == a + b[..n];
      AllTimesJoin(a, b[..n]);
      assert AllTimes(a) + AllTimes(b[..n]) + t == AllTimes(a) + (AllTimes(b[..n]) + t);
    }
  }

  lemma AllTimesOne(b: Bin)
    ensures AllTimes([b]) == TimesOf(b.file)
  {
    assert [b][..0] == [];
    assert [] + TimesOf(b.file) == TimesOf(b.file);
  }

  predicate AllFrom(ts: seq<nat>, beg: nat) {
    forall k :: 0 <= k < |ts| ==> beg <= ts[k]
  }

  /** Events at or after `beg` do not matter for the last one before it, nor what comes before that. */
  lemma {:induction false} ScanBelowJoin(a: seq<nat>, t: seq<nat>, b: seq<nat>, beg: nat)
    requires AllFrom(b, beg)
    ensures match ScanBelow(t, beg)
            case Some(k) => ScanBelow(a + t + b, beg) == Some(|a| + k)
            case None => ScanBelow(a + t + b, beg) == ScanBelow(a, beg)
    decreases |b|, |t|
  {
    var all := a + t + b;
    if b != [] {
      assert all[..|all| - 1] == a + t + b[..|b| - 1];
      assert all[|all| - 1] == b[|b| - 1];
      ScanBelowJoin(a, t, b[..|b| - 1], beg);
    } else if t == [] {
      assert all == a;
    } else {
      assert all == a + t && all[|all| - 1] == t[|t| - 1];
      if t[|t| - 1] >= beg {
        assert all[..|all| - 1] == a + t[..|t| - 1] + [];
        ScanBelowJoin(a, t[..|t| - 1], [], beg);
      }
    }
  }

  lemma {:induction false} NoneBelow(ts: seq<nat>, beg: nat)
    ensures ScanBelow(ts, beg) == None <==> AllFrom(ts, beg)
  {
    if ts != [] {
      if ts[|ts| - 1] >= beg {
        NoneBelow(ts[..|ts| - 1], beg);
        if AllFrom(ts[..|ts| - 1], beg) {
          forall k | 0 <= k < |ts|
            ensures beg <= ts[k]
          {
            if k < |ts| - 1 { assert ts[..|ts| - 1][k] == ts[k]; }
          }
        }
        if AllFrom(ts, beg) {
          assert forall k :: 0 <= k < |ts| - 1 ==> ts[..|ts| - 1][k] == ts[k];
        }
      }
    }
  }

  /** The walk back starts at the last bin that does not start after the range does. */
  lemma LaterBins(bins: seq<Bin>, bs: nat, beg: nat, i: nat)
    requires WellFormed(bins, bs) && i < |bins| && beg < bins[i].tb * bs
    ensures AllFrom(TimesOf(bins[i].file), beg)
  {
    assert InOrder(bins[i], bs);
  }

  // ---------- what is read ----------

  /** A positioned file: the events from number `from` of bin number `bin` on. */
  datatype Mark = Mark(bin: nat, from: nat)

  predicate IsMark(bins: seq<Bin>, m: Mark) {
    m.bin < |bins| && m.from < |TimesOf(bins[m.bin].file)|
  }

  predicate AreMarks(bins: seq<Bin>, marks: seq<Mark>) {
    forall k :: 0 <= k < |marks| ==> IsMark(bins, marks[k])
  }

  /** The events read out of positioned files, one file after the other. */
  function ReadOut(bins: seq<Bin>, marks: seq<Mark>): seq<nat> {
    if marks == [] then []
    else
      var m := marks[|marks| - 1];
      ReadOut(bins, marks[..|marks| - 1]) + (if IsMark(bins, m) then TimesOf(bins[m.bin].file)[m.from..] else [])
  }

  function AllFiles(sets: seq<OpenedFileSet>): seq<OpenedFile> {
    if sets == [] then [] else AllFiles(sets[..|sets| - 1]) + sets[|sets| - 1].files
  }

  /** The opened files are positioned at the marked events. */
  ghost predicate Marked(bins: seq<Bin>, sets: seq<OpenedFileSet>, marks: seq<Mark>) {
    var files := AllFiles(sets);
    && |files| == |marks| && AreMarks(bins, marks)
    && forall k :: 0 <= k < |files| ==>
      files[k] == OpenedFile(marks[k].bin, PlaceOf(bins[marks[k].bin].file, marks[k].from))
  }

  predicate Increasing(marks: seq<Mark>) {
    forall i, j :: 0 <= i < j < |marks| ==> marks[i].bin < marks[j].bin
  }

  lemma NoSets(bins: seq<Bin>)
    ensures Marked(bins, [], []) && ReadOut(bins, []) == []
  {}

  /** A set without files. */
  lemma EmptySet(bins: seq<Bin>, sets: seq<OpenedFileSet>, marks: seq<Mark>, tb: nat)
    requires Marked(bins, sets, marks)
    ensures Marked(bins, sets + [OpenedFileSet(tb, [])], marks)
  {
    hide PlaceOf, TimesOf;
    var more := sets + [OpenedFileSet(tb, [])];
    assert more[..|sets|] == sets;
    assert AllFiles(more) == AllFiles(sets) + [];
  }

  /** A set with one file. */
  lemma OneFile(bins: seq<Bin>, sets: seq<OpenedFileSet>, marks: seq<Mark>, m: Mark)
    requires Marked(bins, sets, marks) && IsMark(bins, m)
    ensures var f := OpenedFile(m.bin, PlaceOf(bins[m.bin].file, m.from));
            Marked(bins, sets + [OpenedFileSet(bins[m.bin].tb, [f])], marks + [m])
    ensures ReadOut(bins, marks + [m]) == ReadOut(bins, marks) + TimesOf(bins[m.bin].file)[m.from..]
  {
    hide PlaceOf, TimesOf;
    var set1 := OpenedFileSet(bins[m.bin].tb, [OpenedFile(m.bin, PlaceOf(bins[m.bin].file, m.from))]);
    var more := sets + [set1];
    assert more[..|sets|] == sets;
    assert AllFiles(more) == AllFiles(sets) + set1.files;
    assert (marks + [m])[..|marks|] == marks;
    forall k | 0 <= k < |marks + [m]|
      ensures IsMark(bins, (marks + [m])[k])
    {
      if k < |marks| { assert (marks + [m])[k] == marks[k]; }
    }
  }

  // ---------- one bin ----------

  /** The set of a bin whose file is positioned at event `i`. */
  function SetAt(bins: seq<Bin>, p: nat, i: nat): OpenedFileSet
    requires p < |bins| && i < |TimesOf(bins[p].file)|
  {
    OpenedFileSet(bins[p].tb, [OpenedFile(p, PlaceOf(bins[p].file, i))])
  }

  /** Positions the file of one bin, and gives out the set of it; the set is empty if the file is not to be read. */
  method OpenBin(bins: seq<Bin>, ghost bs: nat, p: nat, beg: nat, end: nat, expandLeft: bool, expandRight: bool,
                 sets: seq<OpenedFileSet>, ghost marks: seq<Mark>)
    returns (ok: bool, found: bool, sets': seq<OpenedFileSet>, ghost marks': seq<Mark>)
    requires WellFormed(bins, bs) && p < |bins| && !(expandLeft && expandRight) && beg <= end
    requires Marked(bins, sets, marks)
    ensures ok && Marked(bins, sets', marks')
    ensures match Target(TimesOf(bins[p].file), beg, end, expandLeft, expandRight)
            case Some(i) =>
              && found && marks' == marks + [Mark(p, i)] && sets' == sets + [SetAt(bins, p, i)]
              && ReadOut(bins, marks') == ReadOut(bins, marks) + TimesOf(bins[p].file)[i..]
            case None => !found && marks' == marks && sets' == sets + [OpenedFileSet(bins[p].tb, [])]
  {
    hide IsFile, TimesOf, PlaceOf, Marked, ReadOut, Target, Sorted;
    assert IsFile(bins[p].file) && Sorted(TimesOf(bins[p].file)) by { BinInOrder(bins, bs, p); }
    ok, found, sets', marks' := true, false, sets, marks;
    var w := PositionFile(bins[p].file, beg, end, expandLeft, expandRight);
    if !w.Good? { ok := false; return; }
    var files := [];
    if w.value.Some? {
      files := files + [OpenedFile(p, w.value.value)];
      found := true;
    }
    sets' := sets + [OpenedFileSet(bins[p].tb, files)];
    ghost var t := Target(TimesOf(bins[p].file), beg, end, expandLeft, expandRight);
    if t.Some? {
      marks' := marks + [Mark(p, t.value)];
      assert files == [OpenedFile(p, PlaceOf(bins[p].file, t.value))];
      OneFile(bins, sets, marks, Mark(p, t.value));
    } else {
      assert files == [];
      EmptySet(bins, sets, marks, bins[p].tb);
    }
  }

  lemma BinInOrder(bins: seq<Bin>, bs: nat, p: nat)
    requires WellFormed(bins, bs) && p < |bins|
    ensures IsFile(bins[p].file) && Sorted(TimesOf(bins[p].file)) && 0 < |TimesOf(bins[p].file)|
  {
    assert InOrder(bins[p], bs);
  }

  // ---------- the plain range ----------

  /** The bins that overlap the range. */
  predicate Overlaps(b: Bin, bs: nat, beg: nat, end: nat) {
    b.tb * bs < end && beg < b.tb * bs + bs
  }

  /** The file of a bin that has an event in the range is opened at the first event at or after its start; no other is. */
  ghost predicate IsPlainSet(bins: seq<Bin>, i: nat, beg: nat, end: nat, given: OpenedFileSet)
    requires i < |bins|
  {
    var ts := TimesOf(bins[i].file);
    && given.timebin == bins[i].tb && |given.files| <= 1
    && (given.files != [] <==> exists j :: 0 <= j < |ts| && beg <= ts[j] < end)
    && (given.files != [] ==>
          exists j :: 0 <= j < |ts| && FirstAtOrAfter(ts, beg, j) && given.files[0] == OpenedFile(i, PlaceOf(bins[i].file, j)))
  }

  ghost predicate FirstAtOrAfter(ts: seq<nat>, beg: nat, j: nat)
    requires j < |ts|
  {
    beg <= ts[j] && forall l :: 0 <= l < j ==> ts[l] < beg
  }

  /** The sets given out for the first `n` bins: one for each that overlaps the range, in their order. */
  ghost predicate ArePlainSets(bins: seq<Bin>, bs: nat, n: nat, beg: nat, end: nat, given: seq<OpenedFileSet>, which: seq<nat>) {
    && |which| == |given| && n <= |bins|
    && (forall k, l :: 0 <= k < l < |which| ==> which[k] < which[l])
    && (forall i: nat :: i in which <==> i < n && bins[i].tb * bs < end && beg < bins[i].tb * bs + bs)
    && (forall k :: 0 <= k < |which| ==> which[k] < n && IsPlainSet(bins, which[k], beg, end, given[k]))
  }

  /** A bin is marked if and only if it has an event in the range, at the first event at or after its start. */
  ghost predicate ArePlainMarks(bins: seq<Bin>, n: nat, beg: nat, end: nat, marks: seq<Mark>)
    requires n <= |bins|
  {
    && (forall k :: 0 <= k < |marks| ==>
          marks[k].bin < n && IsMark(bins, marks[k]) && FirstAtOrAfter(TimesOf(bins[marks[k].bin].file), beg, marks[k].from))
    && (forall i :: 0 <= i < n ==>
          ((exists k :: 0 <= k < |marks| && marks[k].bin == i) <==> HasEvent(TimesOf(bins[i].file), beg, end)))
  }

  ghost predicate HasEvent(ts: seq<nat>, beg: nat, end: nat) {
    exists j :: 0 <= j < |ts| && beg <= ts[j] < end
  }

  /** The sets of the plain range, one for each bin that overlaps it. */
  method OpenFilesInner(bins: seq<Bin>, bs: nat, beg: nat, end: nat, sets0: seq<OpenedFileSet>, ghost marks0: seq<Mark>)
    returns (ok: bool, sets: seq<OpenedFileSet>, ghost marks: seq<Mark>, ghost which: seq<nat>)
    requires WellFormed(bins, bs) && beg <= end && Marked(bins, sets0, marks0) && marks0 == []
    ensures ok && Marked(bins, sets, marks) && Increasing(marks)
    ensures sets0 <= sets && ArePlainSets(bins, bs, |bins|, beg, end, sets[|sets0|..], which)
    ensures ArePlainMarks(bins, |bins|, beg, end, marks)
    ensures InRange(ReadOut(bins, marks), beg, end) == InRange(AllTimes(bins), beg, end)
    ensures AllFrom(ReadOut(bins, marks), beg)
  {
    hide TimesOf, Marked, ReadOut, AllTimes, InRange, AllFrom, WellFormed, Target, ArePlainSets, ArePlainMarks, SetAt;
    ok, sets, marks, which := true, sets0, marks0, [];
    NoneOpened(bins, beg, end);
    NoneGiven(bins, bs, beg, end);
    assert bins[..|bins|] == bins;
    assert sets0[|sets0|..] == [];
    for i := 0 to |bins|
      invariant ok && Marked(bins, sets, marks) && Increasing(marks)
      invariant sets0 <= sets && ArePlainSets(bins, bs, i, beg, end, sets[|sets0|..], which) && ArePlainMarks(bins, i, beg, end, marks)
      invariant forall k :: 0 <= k < |marks| ==> marks[k].bin < i
      invariant InRange(ReadOut(bins, marks), beg, end) == InRange(AllTimes(bins[..i]), beg, end)
      invariant AllFrom(ReadOut(bins, marks), beg)
    {
      var tsBin := bins[i].tb * bs;
      ghost var read := ReadOut(bins, marks);
      if tsBin >= end || tsBin + bs <= beg {
        Skipped(bins, bs, i, beg, end, read);
        NotGiven(bins, bs, i, beg, end, sets[|sets0|..], which, marks);
        continue;
      }
      var found;
      ghost var (given, before) := (sets[|sets0|..], marks);
      ok, found, sets, marks := OpenBin(bins, bs, i, beg, end, false, false, sets, marks);
      if !ok { return; }
      Opened(bins, bs, i, beg, end, read);
      OneGiven(bins, bs, i, beg, end, given, which, before);
      assert sets[|sets0|..] == given + [sets[|sets| - 1]];
      which := which + [i];
    }
  }

  lemma NoneGiven(bins: seq<Bin>, bs: nat, beg: nat, end: nat)
    ensures ArePlainSets(bins, bs, 0, beg, end, [], []) && ArePlainMarks(bins, 0, beg, end, [])
  {}

  /** What is found in a file for the plain range. */
  lemma PlainTarget(ts: seq<nat>, beg: nat, end: nat)
    requires Sorted(ts) && beg <= end
    ensures var t := Target(ts, beg, end, false, false);
            && (t.Some? <==> HasEvent(ts, beg, end))
            && (t.Some? ==> FirstAtOrAfter(ts, beg, t.value) && ts[t.value] < end)
  {
    hide FirstGe;
    FirstGeCrosses(ts, beg);
    var k := FirstGe(ts, beg);
    if k > 0 { assert forall l :: 0 <= l < k ==> ts[l] <= ts[k - 1]; }
    if k < |ts| { assert forall l :: k <= l < |ts| ==> ts[k] <= ts[l]; }
  }

  /** A bin that does not overlap the range has no event in it, and no set. */
  lemma NotGiven(bins: seq<Bin>, bs: nat, i: nat, beg: nat, end: nat, given: seq<OpenedFileSet>, which: seq<nat>, marks: seq<Mark>)
    requires WellFormed(bins, bs) && i < |bins| && !(bins[i].tb * bs < end && beg < bins[i].tb * bs + bs)
    requires ArePlainSets(bins, bs, i, beg, end, given, which) && ArePlainMarks(bins, i, beg, end, marks)
    ensures ArePlainSets(bins, bs, i + 1, beg, end, given, which) && ArePlainMarks(bins, i + 1, beg, end, marks)
  {
    hide TimesOf, IsPlainSet, FirstAtOrAfter;
    assert InOrder(bins[i], bs);
  }

  lemma OneGiven(bins: seq<Bin>, bs: nat, i: nat, beg: nat, end: nat, given: seq<OpenedFileSet>, which: seq<nat>, marks: seq<Mark>)
    requires WellFormed(bins, bs) && i < |bins| && bins[i].tb * bs < end && beg < bins[i].tb * bs + bs && beg <= end
    requires ArePlainSets(bins, bs, i, beg, end, given, which) && ArePlainMarks(bins, i, beg, end, marks)
    ensures var t := Target(TimesOf(bins[i].file), beg, end, false, false);
            var one := if t.Some? then SetAt(bins, i, t.value) else OpenedFileSet(bins[i].tb, []);
            && ArePlainSets(bins, bs, i + 1, beg, end, given + [one], which + [i])
            && ArePlainMarks(bins, i + 1, beg, end, if t.Some? then marks + [Mark(i, t.value)] else marks)
  {
    hide *;
    var ts := TimesOf(bins[i].file);
    BinInOrder(bins, bs, i);
    PlainTarget(ts, beg, end);
    var t := Target(ts, beg, end, false, false);
    var one := if t.Some? then SetAt(bins, i, t.value) else OpenedFileSet(bins[i].tb, []);
    PlainSet(bins, i, beg, end, t, one);
    OneSetMore(bins, bs, i, beg, end, given, which, one);
    if t.Some? {
      var m := Mark(i, t.value);
      assert IsMark(bins, m) by { MarkIs(bins, m); }
      OneMarkMore(bins, i, beg, end, marks, m);
    } else {
      NoMarkMore(bins, i, beg, end, marks);
    }
  }

  lemma MarkIs(bins: seq<Bin>, m: Mark)
    requires m.bin < |bins| && m.from < |TimesOf(bins[m.bin].file)|
    ensures IsMark(bins, m)
  {}

  lemma PlainSet(bins: seq<Bin>, i: nat, beg: nat, end: nat, t: Option<nat>, one: OpenedFileSet)
    requires i < |bins| && (t.Some? ==> t.value < |TimesOf(bins[i].file)| && FirstAtOrAfter(TimesOf(bins[i].file), beg, t.value))
    requires t.Some? <==> HasEvent(TimesOf(bins[i].file), beg, end)
    requires one == if t.Some? then SetAt(bins, i, t.value) else OpenedFileSet(bins[i].tb, [])
    ensures IsPlainSet(bins, i, beg, end, one)
  {
    hide TimesOf, PlaceOf, FirstAtOrAfter;
  }

  lemma NoMarkMore(bins: seq<Bin>, i: nat, beg: nat, end: nat, marks: seq<Mark>)
    requires i < |bins| && !HasEvent(TimesOf(bins[i].file), beg, end) && ArePlainMarks(bins, i, beg, end, marks)
    ensures ArePlainMarks(bins, i + 1, beg, end, marks)
  {
    hide TimesOf, FirstAtOrAfter, HasEvent;
  }

  lemma OneSetMore(bins: seq<Bin>, bs: nat, i: nat, beg: nat, end: nat, given: seq<OpenedFileSet>, which: seq<nat>, one: OpenedFileSet)
    requires i < |bins| && bins[i].tb * bs < end && beg < bins[i].tb * bs + bs && IsPlainSet(bins, i, beg, end, one)
    requires ArePlainSets(bins, bs, i, beg, end, given, which)
    ensures ArePlainSets(bins, bs, i + 1, beg, end, given + [one], which + [i])
  {
    hide IsPlainSet;
  }

  lemma OneMarkMore(bins: seq<Bin>, i: nat, beg: nat, end: nat, marks: seq<Mark>, m: Mark)
    requires i < |bins| && m.bin == i && IsMark(bins, m) && FirstAtOrAfter(TimesOf(bins[i].file), beg, m.from)
    requires HasEvent(TimesOf(bins[i].file), beg, end) && ArePlainMarks(bins, i, beg, end, marks)
    ensures ArePlainMarks(bins, i + 1, beg, end, marks + [m])
  {
    hide TimesOf, FirstAtOrAfter, HasEvent;
    var more := marks + [m];
    forall k: nat | k < i + 1
      ensures (exists l :: 0 <= l < |more| && more[l].bin == k) <==> HasEvent(TimesOf(bins[k].file), beg, end)
    {
      if k == i { assert more[|marks|].bin == i; }
      if exists l :: 0 <= l < |marks| && marks[l].bin == k {
        var l :| 0 <= l < |marks| && marks[l].bin == k;
        assert more[l].bin == k;
      }
    }
  }

  /** The times within the range. */
  function InRange(ts: seq<nat>, beg: nat, end: nat): seq<nat> {
    if ts == [] then []
    else InRange(ts[..|ts| - 1], beg, end) + (if beg <= ts[|ts| - 1] < end then [ts[|ts| - 1]] else [])
  }

  lemma {:induction false} InRangeJoin(a: seq<nat>, b: seq<nat>, beg: nat, end: nat)
    ensures InRange(a + b, beg, end) == InRange(a, beg, end) + InRange(b, beg, end)
    decreases |b|
  {
    if b == [] {
      assert a + b == a && InRange(a, beg, end) + [] == InRange(a, beg, end);
    } else {
      var n := |b| - 1;
      assert (a + b)[..|a + b| - 1] == a + b[..n] && (a + b)[|a + b| - 1] == b[n];
      InRangeJoin(a, b[..n], beg, end);
    }
  }

  lemma {:induction false} NothingInRange(ts: seq<nat>, beg: nat, end: nat)
    requires forall k :: 0 <= k < |ts| ==> !(beg <= ts[k] < end)
    ensures InRange(ts, beg, end) == []
  {
    if ts != [] { NothingInRange(ts[..|ts| - 1], beg, end); }
  }

  lemma NoneOpened(bins: seq<Bin>, beg: nat, end: nat)
    ensures ReadOut(bins, []) == [] && AllTimes(bins[..0]) == [] && AllFrom([], beg) && InRange([], beg, end) == []
  {
    assert bins[..0] == [];
  }

  lemma NextBin(bins: seq<Bin>, i: nat)
    requires i < |bins|
    ensures AllTimes(bins[..i + 1]) == AllTimes(bins[..i]) + TimesOf(bins[i].file)
  {
    hide TimesOf;
    var more := bins[..i + 1];
    assert more[..|more| - 1] == bins[..i] && more[|more| - 1] == bins[i];
  }

  lemma Skipped(bins: seq<Bin>, bs: nat, i: nat, beg: nat, end: nat, read: seq<nat>)
    requires WellFormed(bins, bs) && i < |bins| && !Overlaps(bins[i], bs, beg, end)
    ensures InRange(AllTimes(bins[..i + 1]), beg, end) == InRange(AllTimes(bins[..i]), beg, end)
  {
    hide AllTimes, InRange, TimesOf;
    assert InOrder(bins[i], bs);
    NextBin(bins, i);
    NothingInRange(TimesOf(bins[i].file), beg, end);
    InRangeJoin(AllTimes(bins[..i]), TimesOf(bins[i].file), beg, end);
  }

  /** Reading a bin's file from where it is positioned gives its events in the range. */
  lemma Opened(bins: seq<Bin>, bs: nat, i: nat, beg: nat, end: nat, read: seq<nat>)
    requires WellFormed(bins, bs) && i < |bins| && beg <= end && AllFrom(read, beg)
    requires InRange(read, beg, end) == InRange(AllTimes(bins[..i]), beg, end)
    ensures var ts := TimesOf(bins[i].file);
            var more := match Target(ts, beg, end, false, false) case Some(k) => read + ts[k..] case None => read;
            && InRange(more, beg, end) == InRange(AllTimes(bins[..i + 1]), beg, end)
            && AllFrom(more, beg)
  {
    hide AllTimes, InRange, TimesOf, FirstGe, AllFrom, Sorted;
    var ts := TimesOf(bins[i].file);
    assert Sorted(ts) by { BinInOrder(bins, bs, i); }
    NextBin(bins, i);
    InRangeJoin(AllTimes(bins[..i]), ts, beg, end);
    FromTarget(ts, beg, end);
    var k := FirstGe(ts, beg);
    InRangeJoin(read, ts[k..], beg, end);
    AllFromJoin(read, ts[k..], beg);
    assert InRange(read, beg, end) + [] == InRange(read, beg, end);
  }

  lemma AllFromJoin(a: seq<nat>, b: seq<nat>, beg: nat)
    ensures AllFrom(a + b, beg) <==> AllFrom(a, beg) && AllFrom(b, beg)
  {
    if AllFrom(a + b, beg) {
      forall k | 0 <= k < |a|
        ensures beg <= a[k]
      {
        assert (a + b)[k] == a[k];
      }
      forall k | 0 <= k < |b|
        ensures beg <= b[k]
      {
        assert (a + b)[|a| + k] == b[k];
      }
    }
  }

  /** The events of an ordered file that are in the range are all from the target on. */
  lemma FromTarget(ts: seq<nat>, beg: nat, end: nat)
    requires Sorted(ts) && beg <= end
    ensures var k := FirstGe(ts, beg);
            && InRange(ts, beg, end) == InRange(ts[k..], beg, end) && AllFrom(ts[k..], beg)
            && (Target(ts, beg, end, false, false).None? ==> InRange(ts, beg, end) == [])
  {
    hide InRange, FirstGe;
    FirstGeCrosses(ts, beg);
    var k := FirstGe(ts, beg);
    assert ts == ts[..k] + ts[k..];
    InRangeJoin(ts[..k], ts[k..], beg, end);
    if k > 0 { assert forall l :: 0 <= l < k ==> ts[l] <= ts[k - 1]; }
    NothingInRange(ts[..k], beg, end);
    assert [] + InRange(ts[k..], beg, end) == InRange(ts[k..], beg, end);
    if k < |ts| { assert forall l :: k <= l < |ts| ==> ts[k] <= ts[l]; }
    if Target(ts, beg, end, false, false).None? { NothingInRange(ts[k..], beg, end); }
  }

  // ---------- the expanded range ----------

  /** The last bin that does not start after the range does, or the first bin. */
  method StartBin(bins: seq<Bin>, bs: nat, beg: nat) returns (p: nat)
    requires WellFormed(bins, bs) && bins != []
    ensures p < |bins| && forall i :: p < i < |bins| ==> AllFrom(TimesOf(bins[i].file), beg)
    ensures (bins[p].tb * bs <= beg || p == 0) && forall i :: p < i < |bins| ==> beg < bins[i].tb * bs
  {
    hide TimesOf, WellFormed, AllFrom;
    var i := |bins|;
    while i > 0
      invariant 0 <= i <= |bins|
      invariant forall k :: i <= k < |bins| ==> beg < bins[k].tb * bs
      invariant forall k :: i <= k < |bins| ==> AllFrom(TimesOf(bins[k].file), beg)
    {
      i := i - 1;
      if bins[i].tb * bs <= beg { return i; }
      LaterBins(bins, bs, beg, i);
    }
    return 0;
  }

  /** Sets without files, for the bins from `p0` back to `p`. */
  function WithoutFiles(bins: seq<Bin>, p0: nat, p: nat): seq<OpenedFileSet>
    requires p0 < |bins| && p <= p0 + 1
  {
    seq(p0 + 1 - p, k requires 0 <= k < p0 + 1 - p => OpenedFileSet(bins[p0 - k].tb, []))
  }

  lemma BackOne(bins: seq<Bin>, p0: nat, p: nat)
    requires p <= p0 < |bins|
    ensures WithoutFiles(bins, p0, p) == WithoutFiles(bins, p0, p + 1) + [OpenedFileSet(bins[p].tb, [])]
    ensures WithoutFiles(bins, p0, p0 + 1) == []
  {
    var (a, b) := (WithoutFiles(bins, p0, p), WithoutFiles(bins, p0, p + 1) + [OpenedFileSet(bins[p].tb, [])]);
    forall k | 0 <= k < |a|
      ensures a[k] == b[k]
    {
      if k == p0 - p { assert bins[p0 - k] == bins[p]; }
    }
    assert |a| == |b|;
  }

  /** Back from bin `p` to one that has an event before the range; sets without files are given out on the way. */
  method WalkBack(bins: seq<Bin>, ghost bs: nat, p0: nat, beg: nat, end: nat)
    returns (ok: bool, foundPre: bool, p: nat, sets: seq<OpenedFileSet>, ghost marks: seq<Mark>)
    requires WellFormed(bins, bs) && p0 < |bins| && beg <= end
    requires forall i :: p0 < i < |bins| ==> AllFrom(TimesOf(bins[i].file), beg)
    ensures ok && p < |bins| && Marked(bins, sets, marks)
    ensures forall i :: p < i < |bins| ==> AllFrom(TimesOf(bins[i].file), beg)
    ensures var t := ScanBelow(TimesOf(bins[p].file), beg);
            if foundPre then
              && t.Some? && marks == [Mark(p, t.value)] && ReadOut(bins, marks) == TimesOf(bins[p].file)[t.value..]
              && p <= p0 && sets == WithoutFiles(bins, p0, p + 1) + [SetAt(bins, p, t.value)]
            else p == 0 && t.None? && marks == [] && sets == WithoutFiles(bins, p0, 0)
  {
    hide TimesOf, Marked, ReadOut, WellFormed, AllFrom, ScanBelow, WithoutFiles, SetAt;
    ok, foundPre, p, sets, marks := true, false, p0, [], [];
    NoSets(bins);
    BackOne(bins, p0, p0);
    while true
      invariant ok && !foundPre && p <= p0 && Marked(bins, sets, marks) && marks == []
      invariant sets == WithoutFiles(bins, p0, p + 1)
      invariant forall i :: p < i < |bins| ==> AllFrom(TimesOf(bins[i].file), beg)
      decreases p
    {
      ok, foundPre, sets, marks := OpenBin(bins, bs, p, beg, end, true, false, sets, marks);
      if !ok { return; }
      NoSets(bins);
      ghost var t := ScanBelow(TimesOf(bins[p].file), beg);
      if foundPre {
        assert marks == [Mark(p, t.value)];
        assert [] + TimesOf(bins[p].file)[t.value..] == TimesOf(bins[p].file)[t.value..];
        return;
      }
      NoneBelow(TimesOf(bins[p].file), beg);
      BackOne(bins, p0, p);
      if p == 0 { return; }
      p := p - 1;
    }
  }

  /** One set for each of the bins from `p0` up to `p`, with its file at the first event. */
  ghost predicate AreWholeFiles(bins: seq<Bin>, p0: nat, p: nat, given: seq<OpenedFileSet>) {
    && p0 <= p <= |bins| && |given| == p - p0
    && forall k :: 0 <= k < |given| ==> IsWholeFile(bins, p0 + k, given[k])
  }

  ghost predicate IsWholeFile(bins: seq<Bin>, i: nat, given: OpenedFileSet)
    requires i < |bins|
  {
    && 0 < |TimesOf(bins[i].file)|
    && given.timebin == bins[i].tb && given.files == [OpenedFile(i, PlaceOf(bins[i].file, 0))]
  }

  lemma NoWholeFiles(bins: seq<Bin>, p0: nat)
    requires p0 <= |bins|
    ensures AreWholeFiles(bins, p0, p0, [])
  {}

  lemma OneWholeFile(bins: seq<Bin>, p0: nat, p: nat, given: seq<OpenedFileSet>)
    requires p < |bins| && AreWholeFiles(bins, p0, p, given) && 0 < |TimesOf(bins[p].file)|
    ensures AreWholeFiles(bins, p0, p + 1, given + [SetAt(bins, p, 0)])
  {
    hide TimesOf, PlaceOf;
    var more := given + [SetAt(bins, p, 0)];
    forall k | 0 <= k < |more|
      ensures IsWholeFile(bins, p0 + k, more[k])
    {
      if k < |given| { assert more[k] == given[k]; } else { assert p0 + k == p; }
    }
  }

  /** Forward from the bin after the one with the event before the range: every file from its start. */
  method WalkOn(bins: seq<Bin>, ghost bs: nat, p0: nat, beg: nat, end: nat, sets0: seq<OpenedFileSet>, ghost marks0: seq<Mark>)
    returns (ok: bool, sets: seq<OpenedFileSet>, ghost marks: seq<Mark>)
    requires WellFormed(bins, bs) && p0 <= |bins| && beg <= end && Marked(bins, sets0, marks0) && Increasing(marks0)
    requires forall k :: 0 <= k < |marks0| ==> marks0[k].bin < p0
    requires forall i :: p0 <= i < |bins| ==> AllFrom(TimesOf(bins[i].file), beg)
    ensures ok && Marked(bins, sets, marks) && Increasing(marks)
    ensures ReadOut(bins, marks) == ReadOut(bins, marks0) + AllTimes(bins[p0..])
    ensures sets0 <= sets && AreWholeFiles(bins, p0, |bins|, sets[|sets0|..])
  {
    hide TimesOf, Marked, ReadOut, AllTimes, WellFormed, AllFrom, SetAt, AreWholeFiles;
    ok, sets, marks := true, sets0, marks0;
    var p := p0;
    Nothing(bins, p0);
    assert sets0[|sets0|..] == [] && AreWholeFiles(bins, p0, p0, []) by { NoWholeFiles(bins, p0); }
    assert ReadOut(bins, marks) + [] == ReadOut(bins, marks);
    while p < |bins|
      invariant p0 <= p <= |bins| && ok && Marked(bins, sets, marks) && Increasing(marks)
      invariant forall k :: 0 <= k < |marks| ==> marks[k].bin < p
      invariant ReadOut(bins, marks) == ReadOut(bins, marks0) + AllTimes(bins[p0..p])
      invariant sets0 <= sets && AreWholeFiles(bins, p0, p, sets[|sets0|..])
    {
      ghost var (ts, given) := (TimesOf(bins[p].file), sets[|sets0|..]);
      var found;
      ok, found, sets, marks := OpenBin(bins, bs, p, beg, end, false, true, sets, marks);
      if !ok { return; }
      WholeFile(bins, bs, p, beg, end);
      assert ReadOut(bins, marks0) + AllTimes(bins[p0..p]) + ts == ReadOut(bins, marks0) + (AllTimes(bins[p0..p]) + ts);
      OneMoreBin(bins, p0, p);
      OneWholeFile(bins, p0, p, given);
      assert sets[|sets0|..] == given + [SetAt(bins, p, 0)];
      p := p + 1;
    }
    assert bins[p0..|bins|] == bins[p0..];
  }

  lemma Nothing(bins: seq<Bin>, p: nat)
    requires p <= |bins|
    ensures AllTimes(bins[p..p]) == []
  {}

  lemma OneMoreBin(bins: seq<Bin>, p0: nat, p: nat)
    requires p0 <= p < |bins|
    ensures AllTimes(bins[p0..p + 1]) == AllTimes(bins[p0..p]) + TimesOf(bins[p].file)
  {
    hide TimesOf;
    var more := bins[p0..p + 1];
    assert more[..|more| - 1] == bins[p0..p] && more[|more| - 1] == bins[p];
  }

  lemma WholeFile(bins: seq<Bin>, bs: nat, p: nat, beg: nat, end: nat)
    requires WellFormed(bins, bs) && p < |bins| && AllFrom(TimesOf(bins[p].file), beg)
    ensures var ts := TimesOf(bins[p].file); Target(ts, beg, end, false, true) == Some(0) && ts[0..] == ts
  {
    hide TimesOf;
    BinInOrder(bins, bs, p);
    assert TimesOf(bins[p].file)[0] >= beg;
  }

  /** In the list of all events the last one before the range is where the walk found it. */
  lemma FoundGlobally(bins: seq<Bin>, p: nat, k: nat, beg: nat)
    requires p < |bins| && ScanBelow(TimesOf(bins[p].file), beg) == Some(k)
    requires forall i :: p < i < |bins| ==> AllFrom(TimesOf(bins[i].file), beg)
    ensures var all := AllTimes(bins);
            ScanBelow(all, beg).Some? && all[ScanBelow(all, beg).value..] == TimesOf(bins[p].file)[k..] + AllTimes(bins[p + 1..])
  {
    hide TimesOf, AllTimes, ScanBelow, AllFrom;
    var (a, ts, b) := (AllTimes(bins[..p]), TimesOf(bins[p].file), AllTimes(bins[p + 1..]));
    assert bins == bins[..p] + [bins[p]] + bins[p + 1..];
    AllTimesJoin(bins[..p] + [bins[p]], bins[p + 1..]);
    AllTimesJoin(bins[..p], [bins[p]]);
    AllTimesOne(bins[p]);
    AllFromBins(bins[p + 1..], beg);
    ScanBelowJoin(a, ts, b, beg);
    assert (a + ts + b)[|a| + k..] == ts[k..] + b;
  }

  lemma {:induction false} AllFromBins(bins: seq<Bin>, beg: nat)
    requires forall i :: 0 <= i < |bins| ==> AllFrom(TimesOf(bins[i].file), beg)
    ensures AllFrom(AllTimes(bins), beg)
  {
    hide TimesOf, AllFrom;
    if bins == [] {
      AllFromJoin([], [], beg);
      assert AllFrom([], beg) by { NothingFrom(beg); }
    } else {
      var n := |bins| - 1;
      AllFromBins(bins[..n], beg);
      AllFromJoin(AllTimes(bins[..n]), TimesOf(bins[n].file), beg);
    }
  }

  lemma NothingFrom(beg: nat)
    ensures AllFrom([], beg)
  {}

  /** The last bin that does not start after the range does; the first one if all do. */
  ghost predicate IsStart(bins: seq<Bin>, bs: nat, beg: nat, p0: nat) {
    p0 < |bins| && (bins[p0].tb * bs <= beg || p0 == 0) && forall i :: p0 < i < |bins| ==> beg < bins[i].tb * bs
  }

  /**
   The sets given out for an expanded range: from the start bin `p0` back to the bin `p` one
   without a file each; then, if an event precedes the range, the file of `p` at the last
   such event and all later files from their start; else the sets of the plain range.
   */
  ghost predicate AreExpandedSets(bins: seq<Bin>, bs: nat, beg: nat, end: nat, sets: seq<OpenedFileSet>, p0: nat, p: nat, which: seq<nat>) {
    if bins == [] then sets == []
    else
      && IsStart(bins, bs, beg, p0) && p <= p0
      && var t := ScanBelow(TimesOf(bins[p].file), beg);
      if t.Some? then
        var n := p0 - p;
        && n + 1 <= |sets| && sets[..n] == WithoutFiles(bins, p0, p + 1)
        && sets[n] == OpenedFileSet(bins[p].tb, [OpenedFile(p, PlaceOf(bins[p].file, t.value))])
        && AreWholeFiles(bins, p + 1, |bins|, sets[n + 1..])
      else
        && p == 0 && AllFrom(AllTimes(bins), beg)
        && WithoutFiles(bins, p0, 0) <= sets && ArePlainSets(bins, bs, |bins|, beg, end, sets[p0 + 1..], which)
  }

  /**
   The files for a range expanded to the left.  If some event precedes the range, the files
   that are given out come in order of their bins and read out exactly the events from the
   last one before the range on; if none does, they read out the events of the range.
   */
  method OpenExpandedFilesInner(bins: seq<Bin>, bs: nat, beg: nat, end: nat)
    returns (ok: bool, sets: seq<OpenedFileSet>, ghost marks: seq<Mark>, ghost p0: nat, ghost p: nat, ghost which: seq<nat>)
    requires WellFormed(bins, bs) && beg <= end
    ensures ok && Marked(bins, sets, marks) && Increasing(marks)
    ensures var (all, read) := (AllTimes(bins), ReadOut(bins, marks));
            match ScanBelow(all, beg)
            case Some(g) => read == all[g..]
            case None => InRange(read, beg, end) == InRange(all, beg, end) && AllFrom(read, beg)
    ensures AreExpandedSets(bins, bs, beg, end, sets, p0, p, which)
    ensures ScanBelow(AllTimes(bins), beg).None? ==> ArePlainMarks(bins, |bins|, beg, end, marks)
  {
    hide TimesOf, Marked, ReadOut, AllTimes, WellFormed, AllFrom, ScanBelow, InRange, ArePlainSets, ArePlainMarks, AreWholeFiles, WithoutFiles, SetAt;
    ok, sets, marks, p0, p, which := true, [], [], 0, 0, [];
    NoSets(bins);
    if |bins| == 0 {
      NothingAtAll(beg);
      NoneGiven(bins, bs, beg, end);
      return;
    }
    var p1 := StartBin(bins, bs, beg);
    p0 := p1;
    var foundPre;
    ok, foundPre, p1, sets, marks := WalkBack(bins, bs, p1, beg, end);
    p := p1;
    ghost var back := sets;
    if !ok { return; }
    ghost var ts := TimesOf(bins[p].file);
    if foundPre {
      FoundGlobally(bins, p, ScanBelow(ts, beg).value, beg);
      ok, sets, marks := WalkOn(bins, bs, p1 + 1, beg, end, sets, marks);
      assert sets == back + sets[|back|..];
      FoundSets(bins, bs, beg, end, p0, p, back, sets[|back|..], which);
    } else {
      NoneBelow(ts, beg);
      AllFromBins(bins, beg);
      NoneBelow(AllTimes(bins), beg);
      ok, sets, marks, which := OpenFilesInner(bins, bs, beg, end, sets, marks);
      assert |back| == p0 + 1 by { BackLength(bins, p0, 0); }
    }
  }

  lemma BackLength(bins: seq<Bin>, p0: nat, p: nat)
    requires p <= p0 + 1 && p0 < |bins|
    ensures |WithoutFiles(bins, p0, p)| == p0 + 1 - p
  {}

  lemma FoundSets(bins: seq<Bin>, bs: nat, beg: nat, end: nat, p0: nat, p: nat, back: seq<OpenedFileSet>, on: seq<OpenedFileSet>, which: seq<nat>)
    requires bins != [] && IsStart(bins, bs, beg, p0) && p <= p0 && ScanBelow(TimesOf(bins[p].file), beg).Some?
    requires back == WithoutFiles(bins, p0, p + 1) + [SetAt(bins, p, ScanBelow(TimesOf(bins[p].file), beg).value)]
    requires AreWholeFiles(bins, p + 1, |bins|, on)
    ensures AreExpandedSets(bins, bs, beg, end, back + on, p0, p, which)
  {
    hide TimesOf, PlaceOf, ScanBelow, AreWholeFiles, WithoutFiles;
    BackLength(bins, p0, p + 1);
    var (n, sets) := (p0 - p, back + on);
    assert sets[..n] == WithoutFiles(bins, p0, p + 1) && sets[n] == back[n] && sets[n + 1..] == on;
  }

  lemma NothingAtAll(beg: nat)
    ensures AllTimes([]) == [] && ScanBelow([], beg) == None && AllFrom([], beg)
  {}
}
