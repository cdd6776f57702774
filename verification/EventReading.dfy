/** What a whole run over a file gives, however the file is cut into chunks. */
module EventReading {
  import opened Bytes
  import opened EventFormat
  import opened NeedMinBuffer
  import opened EventChunker
  import opened EventFields

  /** At the end of some item of the input, what has arrived cannot be read in one piece. */
  ghost predicate FailsAtSomeCut(c: Conf, max: nat, start: St, input: seq<Input>) {
    exists j :: 0 <= j <= |input| && !Run(c, max, start, Stream(input[..j])).ok
  }

  /** A run that has come to its end against the reading of the whole input in one piece. */
  lemma RunIsReading(c: Conf, max: nat, start: St, input: seq<Input>, taken: nat, emitted: seq<Event>, st: St, left: seq<byte>, errored: bool)
    requires taken <= |input| && ReadableUntil(c, max, start, input, taken)
    requires !errored ==> ReadSoFar(c, max, start, Stream(input[..taken]), emitted, st, left) && (st.done || taken == |input|)
    requires errored ==> !Run(c, max, start, Stream(input[..taken])).ok
    ensures errored <==> FailsAtSomeCut(c, max, start, input)
    ensures !errored ==>
      && |Stream(input)| == |Stream(input[..taken])| + |Stream(input[taken..])|
      && Run(c, max, start, Stream(input)) == Result(true, emitted, st, left + Stream(input[taken..]))
  {
    hide Run, Stream;
    if !errored {
      forall j | taken <= j <= |input|
        ensures Stream(input[..j]) == Stream(input[..taken]) + Stream(input[taken..j])
      {
        assert input[..j] == input[..taken] + input[taken..j];
        StreamSplit(input[..taken], input[taken..j]);
      }
      forall j | taken <= j <= |input|
        ensures Run(c, max, start, Stream(input[..j])) == Result(true, emitted, st, left + Stream(input[taken..j]))
      {
        if st.done {
          StoppedForGood(c, max, start, Stream(input[..taken]), Stream(input[taken..j]));
        } else {
          assert input[taken..j] == [] && Stream([]) == [] && left + [] == left by { NoStream(); }
        }
      }
      assert input[..|input|] == input && input[taken..|input|] == input[taken..];
    }
  }

  lemma NoStream()
    ensures Stream([]) == []
  {}

  /** With every event's length in bounds it does not matter where the input is cut. */
  lemma RegularFailsAnyhow(c: Conf, max: nat, start: St, input: seq<Input>)
    requires 513 <= max && Regular(c, max, start, Stream(input))
    ensures FailsAtSomeCut(c, max, start, input) <==> !Run(c, max, start, Stream(input)).ok
  {
    hide Run, Regular, Stream;
    assert input[..|input|] == input;
    if FailsAtSomeCut(c, max, start, input) {
      var j :| 0 <= j <= |input| && !Run(c, max, start, Stream(input[..j])).ok;
      assert input[..j] + input[j..] == input;
      StreamSplit(input[..j], input[j..]);
      StaysFailed(c, max, start, Stream(input[..j]), Stream(input[j..]));
    }
  }

  /**
   The items of a whole run over an input without read errors, whatever bytes it has and
   however they are cut.  There is an error exactly if at some cut what has arrived cannot be
   read in one piece.  Otherwise what comes out is what reading all bytes in one piece gives:
   its events, the range complete exactly if an event past it was seen, and in the stats the
   bytes that were parsed.  If the lengths of the events are in bounds the cuts do not matter
   for the error either.
   */
  method ReadFile(input: seq<Input>, c: Conf, every: nat, fromStart: bool) returns (items: seq<Item>)
    requires 1 <= every
    ensures CompleteIsLast(items)
    ensures var (max, start, bytes) := (NeedMinMax(c.shape), if fromStart then START else START_AT_EVENT, Stream(input));
            Sound(input) ==>
              var r := Run(c, max, start, bytes);
              && (Error in items <==> FailsAtSomeCut(c, max, start, input))
              && (Regular(c, max, start, bytes) ==> (Error in items <==> !r.ok))
              && (Error !in items ==>
                    && r.ok && EventsIn(items) == r.events
                    && (RangeComplete in items <==> r.st.beyond)
                    && StatsIn(items) + |r.rest| == |bytes|)
    ensures Sound(input) && Error !in items ==>
      forall e :: e in EventsIn(items) ==> e.scalarType == c.scalarType && c.accepts(e) && e.ts < c.end
  {
    hide Run, Regular, FrameOf, ReadSoFar, EventsIn, StatsIn, CompleteIsLast, Sound, Stream, ReadableUntil, FailsAtSomeCut, WantedOf, TakenFrom;
    var chunker := new EventChunker(input, c, every, fromStart);
    ghost var (max, start) := (chunker.needMinMax, chunker.start);
    items := chunker.Drain();
    if Sound(input) {
      assert chunker.errored || chunker.stopped || chunker.taken == |input|;
      RunIsReading(c, max, start, input, chunker.taken, chunker.emitted, chunker.State(), chunker.inp.Left(), chunker.errored);
      if Regular(c, max, start, Stream(input)) { RegularFailsAnyhow(c, max, start, input); }
      GivenOutIsWanted(c, max, start, Stream(input));
      GivenOutFits(c, TakenFrom(c, start, Stream(input)));
    }
  }

  /**
   Two ways of cutting the same bytes: the same events and the same range, unless one fails;
   and if the lengths of the events are in bounds both fail or none.
   */
  method TwoCuts(a: seq<Input>, b: seq<Input>, c: Conf, every: nat, fromStart: bool) returns (x: seq<Item>, y: seq<Item>)
    requires 1 <= every && Sound(a) && Sound(b) && Stream(a) == Stream(b)
    ensures Regular(c, NeedMinMax(c.shape), if fromStart then START else START_AT_EVENT, Stream(a)) ==> (Error in x <==> Error in y)
    ensures Error !in x && Error !in y ==>
      && EventsIn(x) == EventsIn(y) && StatsIn(x) == StatsIn(y)
      && (RangeComplete in x <==> RangeComplete in y)
  {
    hide Run, Regular, EventsIn, StatsIn, CompleteIsLast, Sound, Stream, FailsAtSomeCut;
    x := ReadFile(a, c, every, fromStart);
    y := ReadFile(b, c, every, fromStart);
  }

  lemma OneOrTwoChunks(bytes: seq<byte>, k: nat)
    requires k <= |bytes|
    ensures Stream([Chunk(bytes)]) == bytes && Sound([Chunk(bytes)]) && Sound([Chunk(bytes[..k]), Chunk(bytes[k..])])
    ensures Stream([Chunk(bytes[..k]), Chunk(bytes[k..])]) == bytes && Stream([Chunk(bytes[..k]), Chunk(bytes[k..])][..1]) == bytes[..k]
    ensures Stream([Chunk(bytes)][..0]) == [] && [Chunk(bytes)][..1] == [Chunk(bytes)]
  {
    var (one, two) := ([Chunk(bytes)], [Chunk(bytes[..k]), Chunk(bytes[k..])]);
    assert one[1..] == [] && two[1..] == [Chunk(bytes[k..])] && two[1..][1..] == [] && two[..1] == [Chunk(bytes[..k])] && two[..1][1..] == [];
    assert bytes == bytes + [] && bytes[k..] == bytes[k..] + [] && bytes[..k] == bytes[..k] + [] && bytes[..k] + bytes[k..] == bytes;
  }

  /**
   For all other streams the cut matters: a stream that has an event with a length out of
   bounds, and that can be read in one piece, is read when it arrives as one chunk, and is an
   error when it arrives cut in two at the place that `FailingCut` finds.
   */
  method CutMatters(bytes: seq<byte>, c: Conf, every: nat, fromStart: bool) returns (k: nat, whole: seq<Item>, cut: seq<Item>)
    requires 1 <= every
    requires var (max, start) := (NeedMinMax(c.shape), if fromStart then START else START_AT_EVENT);
             Run(c, max, start, bytes).ok && !Regular(c, max, start, bytes)
    ensures Error !in whole && EventsIn(whole) == Run(c, NeedMinMax(c.shape), if fromStart then START else START_AT_EVENT, bytes).events
    ensures k <= |bytes| && Error in cut
  {
    hide Run, Regular, FrameOf, EventsIn, StatsIn, CompleteIsLast, Sound, Stream, FailingCut;
    var (max, start) := (NeedMinMax(c.shape), if fromStart then START else START_AT_EVENT);
    k := FailingCut(c, max, start, bytes);
    CutFails(c, max, start, bytes);
    OneOrTwoChunks(bytes, k);
    var (one, two) := ([Chunk(bytes)], [Chunk(bytes[..k]), Chunk(bytes[k..])]);
    NothingRead(c, max, fromStart);
    whole := ReadFile(one, c, every, fromStart);
    cut := ReadFile(two, c, every, fromStart);
    assert FailsAtSomeCut(c, max, start, two) by { assert !Run(c, max, start, Stream(two[..1])).ok; }
  }

  lemma NothingRead(c: Conf, max: nat, fromStart: bool)
    requires 513 <= max
    ensures Run(c, max, if fromStart then START else START_AT_EVENT, []).ok
  {
    NothingYet(c, if fromStart then START else START_AT_EVENT, []);
  }

  // ---------- the range ----------

  /** The time stamps of the frames that are taken or stopped at. */
  function TimesSeen(c: Conf, max: nat, st: St, buf: seq<byte>): seq<nat>
    decreases |buf|
  {
    if st.done then []
    else
      match FrameOf(c, st, buf)
      case More(_) => []
      case Fail => []
      case Stop(st1) => [st1.lastTs]
      case Took(len, st1, e) => (if st.inHeader then [] else [st1.lastTs]) + TimesSeen(c, max, st1, buf[len..])
  }

  /** An event past the range was seen. */
  predicate Beyond(c: Conf, times: seq<nat>) {
    exists i :: 0 <= i < |times| && times[i] >= c.end
  }

  /** "Beyond" is carried exactly from an event past the range on, and no event past the range is given out. */
  lemma {:induction false} BeyondIsSeen(c: Conf, max: nat, st: St, buf: seq<byte>)
    ensures var r := Run(c, max, st, buf);
            && (r.st.beyond <==> st.beyond || Beyond(c, TimesSeen(c, max, st, buf)))
            && (forall i :: 0 <= i < |r.events| ==> r.events[i].ts < c.end)
    decreases |buf|
  {
    hide FrameOf;
    if !st.done {
      FrameTimes(c, st, buf);
      var f := FrameOf(c, st, buf);
      if f.Took? {
        BeyondIsSeen(c, max, f.st, buf[f.len..]);
        BeyondMore(c, if st.inHeader then [] else [f.st.lastTs], TimesSeen(c, max, f.st, buf[f.len..]));
      } else if f.Stop? {
        BeyondMore(c, [f.st.lastTs], []);
      }
    }
  }

  lemma BeyondMore(c: Conf, a: seq<nat>, b: seq<nat>)
    ensures Beyond(c, a + b) <==> Beyond(c, a) || Beyond(c, b)
    ensures |a| == 1 ==> (Beyond(c, a) <==> a[0] >= c.end)
  {
    if Beyond(c, a + b) {
      var i :| 0 <= i < |a + b| && (a + b)[i] >= c.end;
      if i < |a| { assert a[i] >= c.end; } else { assert b[i - |a|] >= c.end; }
    }
    if Beyond(c, a) {
      var i :| 0 <= i < |a| && a[i] >= c.end;
      assert (a + b)[i] >= c.end;
    }
    if Beyond(c, b) {
      var i :| 0 <= i < |b| && b[i] >= c.end;
      assert (a + b)[|a| + i] >= c.end;
    }
  }

  lemma FrameTimes(c: Conf, st: St, buf: seq<byte>)
    ensures var f := FrameOf(c, st, buf);
            && (f.Stop? || (f.Took? && !st.inHeader) ==> (f.st.beyond <==> st.beyond || f.st.lastTs >= c.end))
            && (f.Took? && st.inHeader ==> f.st.beyond == st.beyond && f.event.None?)
            && (f.Took? && f.event.Some? ==> f.event.value.ts < c.end)
  {
    hide U, Has, TypeOf, ShapeOf;
  }
}
