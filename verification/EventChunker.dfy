/** The incremental parser of data files: a stream of events over a stream of buffers. */
module EventChunker {
  import opened Bytes
  import opened EventFormat
  import opened Netpod
  import opened NeedMinBuffer

  datatype Step = Break | Err | Advance(len: nat, event: Option<Event>)

  datatype Item = Log | Stats(parsedBytes: nat) | Data(events: seq<Event>) | RangeComplete | Error

  /** What a poll gives: nothing yet, the end, or an item. */
  datatype Poll = Pending | Finished | Emits(item: Item)

  function NeedMinMax(shape: Shape): (n: nat)
    ensures 513 <= n
  {
    match shape
    case Scalar => 1024 * 16
    case Wave(_) => 1024 * 6000
    case Image(_, _) => 1024 * 1024 * 80
  }

  function EventsOf(r: Poll): seq<Event> {
    if r.Emits? && r.item.Data? then r.item.events else []
  }

  // ---------- what a run gave out ----------

  function EventsIn(items: seq<Item>): seq<Event> {
    if items == [] then []
    else EventsIn(items[..|items| - 1]) + EventsOf(Emits(items[|items| - 1]))
  }

  function StatsOf(r: Poll): nat {
    if r.Emits? && r.item.Stats? then r.item.parsedBytes else 0
  }

  /** The bytes reported over all stats items. */
  function StatsIn(items: seq<Item>): nat {
    if items == [] then 0
    else StatsIn(items[..|items| - 1]) + StatsOf(Emits(items[|items| - 1]))
  }

  /** The range is reported complete in the last item only, if at all. */
  predicate CompleteIsLast(items: seq<Item>) {
    forall i :: 0 <= i < |items| && items[i] == RangeComplete ==> i == |items| - 1
  }

  lemma OneMore(items: seq<Item>, item: Item)
    ensures EventsIn(items + [item]) == EventsIn(items) + EventsOf(Emits(item))
    ensures StatsIn(items + [item]) == StatsIn(items) + StatsOf(Emits(item))
    ensures CompleteIsLast(items) && RangeComplete !in items ==> CompleteIsLast(items + [item])
    ensures forall x :: x in items + [item] <==> x in items || x == item
  {
    assert (items + [item])[..|items|] == items;
  }

  /** What had arrived before each of the first items can be read in one piece. */
  ghost predicate ReadableUntil(c: Conf, max: nat, start: St, input: seq<Input>, n: nat)
    requires n <= |input|
  {
    forall j :: 0 <= j < n ==> Run(c, max, start, Stream(input[..j])).ok
  }

  lemma NotSound(input: seq<Input>, i: nat)
    requires i < |input| && input[i].Fault?
    ensures !Sound(input)
  {}

  /** The next items gathered: reading goes on from what was left, and nothing changes before there is enough. */
  lemma Reached(c: Conf, max: nat, start: St, input: seq<Input>, taken: nat, emitted: seq<Event>, st: St, left: seq<byte>,
                n: nat, have: seq<byte>, need: nat)
    requires taken <= |input| && ReadableUntil(c, max, start, input, taken)
    requires ReadSoFar(c, max, start, Stream(input[..taken]), emitted, st, left) && !st.done
    requires FrameOf(c, st, left) == More(need) && need <= max && |left| < need
    requires Gathered(input[taken..], n, left, have, need)
    ensures taken + n <= |input| && input[taken..][n..] == input[taken + n..] && (n > 0 ==> input[taken..][n - 1] == input[taken + n - 1])
    ensures |Stream(input[..taken + n])| - |have| == |Stream(input[..taken])| - |left|
    ensures ReadableUntil(c, max, start, input, taken + n)
    ensures Run(c, max, start, Stream(input[..taken + n])) == Joined(emitted, Run(c, max, st, have))
    ensures |have| < need ==> FrameOf(c, st, have) == More(need) && ReadSoFar(c, max, start, Stream(input[..taken + n]), emitted, st, have)
  {
    hide Run, FrameOf, Stream, ReadSoFar;
    var (before, rest) := (Stream(input[..taken]), input[taken..]);
    forall j | 0 <= j <= n
      ensures Stream(input[..taken + j]) == before + Stream(rest[..j])
    {
      assert input[..taken + j] == input[..taken] + rest[..j];
      StreamSplit(input[..taken], rest[..j]);
    }
    ReadOn(c, max, start, before, emitted, st, left, Stream(rest[..n]));
    forall j | taken <= j < taken + n
      ensures Run(c, max, start, Stream(input[..j])).ok
    {
      assert Stream(input[..taken + (j - taken)]) == before + Stream(rest[..j - taken]);
      Short(c, max, start, before, emitted, st, left, rest, j - taken, need, have, n);
    }
    if |have| < need { StillWaiting(c, max, start, before, emitted, st, left, Stream(rest[..n]), need); }
  }

  lemma Short(c: Conf, max: nat, start: St, before: seq<byte>, emitted: seq<Event>, st: St, left: seq<byte>,
              rest: seq<Input>, j: nat, need: nat, have: seq<byte>, n: nat)
    requires ReadSoFar(c, max, start, before, emitted, st, left) && !st.done && j < n
    requires FrameOf(c, st, left) == More(need) && need <= max && |left| < need && Gathered(rest, n, left, have, need)
    ensures Run(c, max, start, before + Stream(rest[..j])).ok
  {
    hide Run, FrameOf;
    assert rest[..0] == [];
    assert |left + Stream(rest[..j])| < need;
    StillWaiting(c, max, start, before, emitted, st, left, Stream(rest[..j]), need);
  }

  class EventChunker {
    const conf: Conf
    const needMinMax: nat
    const diskStatsEvery: nat
    const inp: NeedMinBuffer

    var inHeader: bool
    var needMin: nat
    var lastTs: nat
    var seenBeforeRangeCount: nat
    var seenAfterRangeCount: nat
    var seenBeyondRange: bool
    var dataEmitComplete: bool
    var finalStatsSent: bool
    var sentBeyondRange: bool
    var errored: bool
    var completed: bool
    var parsedBytes: nat
    var logItems: nat

    /** Whether the parser has stopped at an event, which `dataEmitComplete` does not tell from the end of the input. */
    ghost var stopped: bool

    /** What is carried from one frame to the next. */
    ghost function State(): St
      reads this`inHeader, this`lastTs, this`seenBeforeRangeCount, this`seenAfterRangeCount, this`seenBeyondRange, this`stopped
    {
      St(inHeader, lastTs, seenBeforeRangeCount, seenAfterRangeCount, seenBeyondRange, stopped)
    }

    // ---------- ghost history of a run ----------

    /**
     Where reading started, the whole input and how much of it has been taken, what has arrived
     with that, the events and the stats given out, and whether the input failed.
     */
    ghost const start: St
    ghost const input: seq<Input>
    ghost var taken: nat
    ghost var received: seq<byte>
    ghost var emitted: seq<Event>
    ghost var parsedTotal: nat
    ghost var statsTotal: nat
    ghost var faulted: bool
    ghost var ended: bool

    /** The parser waits for `needMin` bytes, and the next frame does too. */
    ghost predicate Waiting()
      reads this`inHeader, this`lastTs, this`seenBeforeRangeCount, this`seenAfterRangeCount, this`seenBeyondRange, this`stopped
      reads this`needMin, inp
    {
      && needMin == inp.needMin <= needMinMax && |inp.Left()| < needMin
      && FrameOf(conf, State(), inp.Left()) == More(needMin)
    }

    /** The order in which a run comes to its end. */
    ghost predicate InOrder()
      reads this, inp
    {
      && (sentBeyondRange ==> finalStatsSent && logItems == 0)
      && (finalStatsSent ==> dataEmitComplete && parsedBytes == 0)
      && (dataEmitComplete <==> stopped || ended) && (ended ==> inp.inp == [])
      && (errored ==> !dataEmitComplete) && (faulted ==> errored && !Sound(input))
    }

    /** Bytes that arrived are parsed or left, and those parsed are reported or about to be. */
    ghost predicate Accounted()
      reads this`statsTotal, this`parsedBytes, this`parsedTotal, this`errored, this`received, inp
    {
      && statsTotal + parsedBytes == parsedTotal
      && (!errored ==> parsedTotal + |inp.Left()| == |received|)
    }

    /** How much has arrived; what had arrived after every item before could be read in one piece. */
    ghost predicate Along()
      reads this`received, this`taken, inp`inp
    {
      && taken <= |input| && inp.inp == input[taken..] && received == Stream(input[..taken])
      && ReadableUntil(conf, needMinMax, start, input, taken)
    }

    /**
     What has been given out is what reading all that arrived gives, in one piece; an error is one
     that reading in one piece has, too.
     */
    ghost predicate Faithful()
      reads this`inHeader, this`lastTs, this`seenBeforeRangeCount, this`seenAfterRangeCount, this`seenBeyondRange, this`stopped
      reads this`errored, this`faulted, this`received, this`taken, this`emitted, inp
    {
      && Along()
      && (!errored ==> ReadSoFar(conf, needMinMax, start, received, emitted, State(), inp.Left()))
      && (errored && !faulted ==> !Run(conf, needMinMax, start, received).ok)
    }

    ghost predicate Valid()
      reads this, inp
    {
      && 513 <= needMinMax && 1 <= diskStatsEvery
      && InOrder() && Accounted() && Faithful()
      && (!errored && !dataEmitComplete ==> Waiting())
    }

    constructor (chunks: seq<Input>, c: Conf, every: nat, fromStart: bool)
      requires 1 <= every
      ensures Valid() && !completed && fresh(inp) && input == chunks && conf == c && needMinMax == NeedMinMax(c.shape)
      ensures start == (if fromStart then START else START_AT_EVENT)
      ensures received == [] && emitted == [] && statsTotal == 0 && !errored && !sentBeyondRange
    {
      conf, needMinMax, diskStatsEvery := c, NeedMinMax(c.shape), every;
      inHeader := fromStart;
      needMin := if fromStart then 6 else 4;
      inp := new NeedMinBuffer(chunks, if fromStart then 6 else 4);
      lastTs, seenBeforeRangeCount, seenAfterRangeCount, parsedBytes, logItems := 0, 0, 0, 0, 0;
      seenBeyondRange, dataEmitComplete, finalStatsSent, sentBeyondRange, errored, completed := false, false, false, false, false, false;
      stopped, start, received, emitted := false, if fromStart then START else START_AT_EVENT, [], [];
      input, taken := chunks, 0;
      parsedTotal, statsTotal, faulted, ended := 0, 0, false, false;
      new;
      assert State() == start;
    }

    // ---------- parsing ----------

    method HeaderStep(buf: seq<byte>) returns (s: Step)
      requires inHeader && !stopped && 6 <= |buf|
      modifies this`inHeader, this`needMin
      ensures s.Advance? ==> !inHeader
      ensures match HeaderFrame(old(State()), buf)
              case More(n) => s == Break && needMin == n && State() == old(State())
              case Fail => s == Err
              case Stop(_) => false
              case Took(len, st, e) => s == Advance(len, e) && e == None && State() == st && needMin == 4
    {
      hide U;
      if U(buf, 0, 2) != 0 { return Err; }
      var len := U(buf, 2, 4);
      if len == 0 || len >= 512 { return Err; }
      var totlen := len + 2;
      if |buf| < totlen {
        needMin := totlen;
        return Break;
      }
      if len < 8 { return Err; }
      var len2 := U(buf, 6 + (len - 8), 4);
      if len != len2 { return Err; }
      inHeader := false;
      needMin := 4;
      return Advance(totlen, None);
    }

    /** The range checks on a time stamp; false when the parser is to stop or to fail. */
    method RangeStep(ts: nat) returns (s: Step, discard: bool)
      requires !inHeader && !stopped && !dataEmitComplete
      modifies this`lastTs, this`seenAfterRangeCount, this`seenBeforeRangeCount, this`seenBeyondRange, this`dataEmitComplete, this`stopped, this`logItems
      ensures s.Err? ==> !dataEmitComplete && !stopped
      ensures var st := Seen(conf, old(State()), ts);
              && (st.done ==> s == Break && dataEmitComplete && State() == st.(before := old(seenBeforeRangeCount)))
              && (!st.done && st.before > 100 && ts < conf.beg ==> s == Err)
              && (!st.done && !(st.before > 100 && ts < conf.beg) ==>
                    s.Advance? && State() == st && !dataEmitComplete && discard == (ts < old(lastTs) || ts >= conf.end))
    {
      s, discard := Advance(0, None), false;
      if ts < lastTs { discard := true; }
      lastTs := ts;
      if ts >= conf.end {
        discard := true;
        seenAfterRangeCount := seenAfterRangeCount + 1;
        seenBeyondRange := true;
        if seenAfterRangeCount >= 2 {
          dataEmitComplete := true;
          stopped := true;
          s := Break;
          return;
        }
      }
      if ts < conf.beg {
        seenBeforeRangeCount := seenBeforeRangeCount + 1;
        if seenBeforeRangeCount < 20 { logItems := logItems + 1; }
        if seenBeforeRangeCount > 100 { s := Err; return; }
      }
    }

    method EventStep(buf: seq<byte>) returns (s: Step)
      requires !inHeader && !stopped && !dataEmitComplete && 4 <= |buf|
      modifies this`needMin, this`lastTs, this`seenAfterRangeCount, this`seenBeforeRangeCount, this`seenBeyondRange, this`dataEmitComplete, this`stopped, this`logItems
      ensures s.Err? ==> !dataEmitComplete && !stopped
      ensures match EventFrame(conf, old(State()), buf)
              case More(n) => s == Break && needMin == n && State() == old(State()) && !dataEmitComplete
              case Fail => s == Err
              case Stop(st) => s == Break && State() == st && dataEmitComplete && needMin == old(needMin)
              case Took(len, st, e) => s == Advance(len, e) && State() == st && needMin == 4 && !dataEmitComplete
    {
      hide U, Decode;
      var len := U(buf, 0, 4);
      if len < 20 || len >= 0x8000_0000 { return Err; }
      if len > LengthLimit(conf.shape) { return Err; }
      if |buf| < len {
        needMin := len;
        return Break;
      }
      if |buf| < 28 { return Err; }
      ghost var st := State();
      var ts := U(buf, 12, 8);
      var step, discard := RangeStep(ts);
      if step.Err? || step.Break? { return step; }
      match Decode(conf, buf, len)
      case Malformed => return Err;
      case Decoded(event, keep) =>
        needMin := 4;
        return Advance(len, if discard || !keep then None else Some(event));
    }

    /** Takes as many frames as the buffer has. */
    method ParseBuf(buf0: seq<byte>) returns (ok: bool, events: seq<Event>, buf: seq<byte>, parsed: nat)
      requires !stopped && !dataEmitComplete && needMin <= |buf0| && (if inHeader then 6 else 4) <= needMin <= needMinMax && 513 <= needMinMax
      modifies this`inHeader, this`needMin, this`lastTs, this`seenAfterRangeCount, this`seenBeforeRangeCount, this`seenBeyondRange, this`dataEmitComplete, this`stopped, this`logItems
      ensures parsed + |buf| == |buf0|
      ensures dataEmitComplete == stopped
      ensures var r := Run(conf, needMinMax, old(State()), buf0);
              if !ok then !r.ok && !stopped
              else
                && r == Result(needMin <= needMinMax, events, State(), buf) && (stopped ==> needMin <= needMinMax)
                && (!stopped ==> |buf| < needMin && FrameOf(conf, State(), buf) == More(needMin))
    {
      hide Run, HeaderFrame, EventFrame, Seen, Decode;
      ok, events, buf, parsed := true, [], buf0, 0;
      ghost var (c, max, st0) := (conf, needMinMax, State());
      assert [] + Run(c, max, st0, buf).events == Run(c, max, st0, buf).events;
      while true
        invariant ok && !stopped && !dataEmitComplete && parsed + |buf| == |buf0|
        invariant (if inHeader then 6 else 4) <= needMin <= needMinMax
        invariant needMin <= |buf| || FrameOf(c, State(), buf) == More(needMin)
        invariant Run(c, max, st0, buf0) == Joined(events, Run(c, max, State(), buf))
        decreases |buf|
      {
        ghost var st := State();
        RunFrame(c, max, st, buf, events);
        ghost var f := FrameOf(c, st, buf);
        if |buf| < needMin { break; }
        var step;
        if inHeader {
          step := HeaderStep(buf);
        } else {
          step := EventStep(buf);
        }
        if step.Err? { ok := false; return; }
        if step.Break? { break; }
        assert events + Given(None) == events;
        if step.event.Some? { events := events + [step.event.value]; }
        buf := buf[step.len..];
        parsed := parsed + step.len;
        NothingYet(c, State(), buf);
      }
    }

    // ---------- the stream of items ----------

    /** How far a run is from its end. */
    ghost function Phase(): nat
      reads this
    {
      if errored || sentBeyondRange then 0 else if finalStatsSent then 1 else if dataEmitComplete then 2 else 3
    }

    /** The input is asked for a buffer, and the buffer parsed; at the end of the input the poll goes on without. */
    method PollInput() returns (again: bool, r: Poll)
      requires Valid() && !errored && !dataEmitComplete
      modifies this`inHeader, this`needMin, this`lastTs, this`seenAfterRangeCount, this`seenBeforeRangeCount, this`seenBeyondRange
      modifies this`dataEmitComplete, this`stopped, this`logItems, this`errored, this`parsedBytes
      modifies this`received, this`taken, this`emitted, this`parsedTotal, this`faulted, this`ended, inp
      ensures Valid() && |inp.inp| <= |old(inp.inp)|
      ensures again ==>
        && dataEmitComplete && !errored && emitted == old(emitted) && logItems == old(logItems) && parsedBytes == old(parsedBytes)
      ensures !again ==>
        && |inp.inp| < |old(inp.inp)| && emitted == old(emitted) + EventsOf(r)
        && (r.Pending? || (r.Emits? && (r.item.Data? || r.item.Error?))) && (errored <==> r == Emits(Error))
    {
      hide Run, FrameOf, ReadSoFar, Stream, Sound, Along;
      ghost var (left, st) := (inp.Left(), State());
      var a := Gather();
      again, r := false, Poll.Pending;
      match a
      case Pending =>
      case Ended =>
        dataEmitComplete, ended, again := true, true, true;
      case Broken =>
        errored, faulted, r := true, true, Emits(Error);
      case Buffer(buf) =>
        r := ParseNext(buf, st);
    }

    /** Polls the buffer in front, and keeps account of what it has taken from the input. */
    method Gather() returns (a: Arrival)
      requires Along() && !errored && !stopped && needMinMax >= 513 && Waiting()
      requires ReadSoFar(conf, needMinMax, start, received, emitted, State(), inp.Left())
      modifies this`received, this`taken, inp`inp, inp`left
      ensures Along() && |inp.inp| <= |old(inp.inp)| && (!a.Ended? ==> |inp.inp| < |old(inp.inp)|)
      ensures a.Ended? ==> inp.inp == []
      ensures a.Broken? ==> !Sound(input)
      ensures !a.Buffer? ==> Waiting() && ReadSoFar(conf, needMinMax, start, received, emitted, State(), inp.Left())
      ensures a.Buffer? ==> inp.left.None? && needMin <= |a.bytes|
      ensures |received| - |if a.Buffer? then a.bytes else inp.Left()| == |old(received)| - |old(inp.Left())|
      ensures a.Buffer? ==> Run(conf, needMinMax, start, received) == Joined(emitted, Run(conf, needMinMax, State(), a.bytes))
    {
      hide Run, FrameOf, ReadSoFar, Stream, Sound, Gathered, ReadableUntil;
      ghost var left := inp.Left();
      ghost var n;
      a, n := inp.PollNext();
      ghost var have := if a.Buffer? then a.bytes else inp.Left();
      Reached(conf, needMinMax, start, input, taken, emitted, State(), left, n, have, needMin);
      taken, received := taken + n, Stream(input[..taken + n]);
      if a.Broken? { NotSound(input, taken - 1); }
    }

    /** A buffer parsed: its events, or an error if a frame fails or is too long to wait for. */
    method ParseNext(buf: seq<byte>, ghost st: St) returns (r: Poll)
      requires !errored && !dataEmitComplete && st == State()
      requires InOrder() && 513 <= needMinMax && 1 <= diskStatsEvery && statsTotal + parsedBytes == parsedTotal
      requires parsedTotal + |buf| == |received| && inp.left.None?
      requires needMin <= |buf| && (if inHeader then 6 else 4) <= needMin == inp.needMin <= needMinMax
      requires Along()
      requires Run(conf, needMinMax, start, received) == Joined(emitted, Run(conf, needMinMax, st, buf))
      modifies this`inHeader, this`needMin, this`lastTs, this`seenAfterRangeCount, this`seenBeforeRangeCount, this`seenBeyondRange
      modifies this`dataEmitComplete, this`stopped, this`logItems, this`errored, this`parsedBytes
      modifies this`emitted, this`parsedTotal, inp`left, inp`needMin
      ensures Valid() && faulted == old(faulted)
      ensures emitted == old(emitted) + EventsOf(r)
      ensures r.Emits? && (r.item.Data? || r.item.Error?) && (errored <==> r == Emits(Error))
    {
      hide Run, FrameOf, Along, Sound;
      var ok, events, rest, parsed := ParseBuf(buf);
      if !ok {
        errored := true;
        return Emits(Error);
      }
      Count(rest, parsed);
      r := Deliver(events);
    }

    /** What has been parsed is counted, and the rest put back. */
    method Count(rest: seq<byte>, parsed: nat)
      requires inp.left.None?
      modifies this`parsedBytes, this`parsedTotal, inp`left
      ensures parsedBytes == old(parsedBytes) + parsed && parsedTotal == old(parsedTotal) + parsed && inp.Left() == rest
    {
      parsedBytes, parsedTotal := parsedBytes + parsed, parsedTotal + parsed;
      if |rest| > 0 { inp.PutBack(rest); }
    }

    /** The events are given out, unless the next frame is too long to wait for. */
    method Deliver(events: seq<Event>) returns (r: Poll)
      requires !errored && dataEmitComplete == stopped
      requires !finalStatsSent && !sentBeyondRange && !ended && !faulted && 513 <= needMinMax && 1 <= diskStatsEvery
      requires statsTotal + parsedBytes == parsedTotal && parsedTotal + |inp.Left()| == |received|
      requires stopped ==> needMin <= needMinMax
      requires !stopped ==> |inp.Left()| < needMin && FrameOf(conf, State(), inp.Left()) == More(needMin)
      requires Along()
      requires Run(conf, needMinMax, start, received) == Result(needMin <= needMinMax, emitted + events, State(), inp.Left())
      modifies this`errored, this`emitted, inp`needMin
      ensures Valid() && emitted == old(emitted) + EventsOf(r)
      ensures r.Emits? && (r.item.Data? || r.item.Error?) && (errored <==> r == Emits(Error))
    {
      hide Run, FrameOf, Along, Sound, State;
      assert emitted + [] == emitted;
      if needMin > needMinMax {
        errored := true;
        return Emits(Error);
      }
      inp.SetNeedMin(needMin);
      emitted := emitted + events;
      return Emits(Data(events));
    }

    /** A poll that is not the last one brings the run nearer to its end. */
    twostate predicate Nearer()
      reads this, inp
    {
      || Phase() < old(Phase())
      || (Phase() == old(Phase()) &&
          (|inp.inp| < |old(inp.inp)| ||
           (|inp.inp| == |old(inp.inp)| &&
            (logItems < old(logItems) || (logItems == old(logItems) && parsedBytes < old(parsedBytes))))))
    }

    /** Nothing has been given out, nor anything it is taken from changed, but the run is nearer to its end. */
    twostate predicate Silently()
      reads this, inp
    {
      && emitted == old(emitted) && statsTotal == old(statsTotal) && errored == old(errored) && !completed && Phase() < old(Phase())
      && logItems == old(logItems) && parsedBytes == old(parsedBytes) && |inp.inp| <= |old(inp.inp)|
      && !old(sentBeyondRange) && (sentBeyondRange ==> !seenBeyondRange)
    }

    /** One way through the loop: the first item that is due, in the order of the branches. */
    method PollOnce() returns (again: bool, r: Poll)
      requires Valid() && !completed
      modifies this, inp
      ensures Valid()
      ensures again ==> Silently()
      ensures !again ==> emitted == old(emitted) + EventsOf(r) && statsTotal == old(statsTotal) + StatsOf(r)
      ensures !again ==> (r == Emits(RangeComplete) <==> sentBeyondRange && !old(sentBeyondRange)) && (r == Emits(RangeComplete) ==> seenBeyondRange)
      ensures !again ==> (r == Emits(Error) <==> errored && !old(errored))
      ensures old(sentBeyondRange) ==> !again && r == Finished && sentBeyondRange && seenBeyondRange == old(seenBeyondRange)
      ensures old(errored) ==> !again && errored && (r == Finished || r == Emits(Log))
      ensures !again ==> if r == Finished then completed && (errored || sentBeyondRange) else !completed && Nearer()
      ensures old(logItems) > 0 ==> !again && r == Emits(Log)
      ensures old(logItems) == 0 && !old(errored) && old(parsedBytes) >= diskStatsEvery ==> !again && r == Emits(Stats(old(parsedBytes)))
      ensures !again && r.Emits? && r.item.Stats? ==> old(parsedBytes) >= diskStatsEvery || old(dataEmitComplete)
    {
      hide Accounted, Faithful, Waiting, State, EventsIn, StatsIn, CompleteIsLast;
      again, r := false, Finished;
      assert emitted + [] == emitted;
      if logItems > 0 {
        logItems := logItems - 1;
        r := Emits(Log);
      } else if errored {
        completed := true;
      } else if parsedBytes >= diskStatsEvery {
        r := Emits(Stats(parsedBytes));
        ReportStats();
      } else if sentBeyondRange {
        completed := true;
      } else if finalStatsSent {
        sentBeyondRange := true;
        if seenBeyondRange { r := Emits(RangeComplete); } else { again := true; }
      } else if dataEmitComplete {
        r := Emits(Stats(parsedBytes));
        ReportStats();
        finalStatsSent := true;
      } else {
        again, r := PollInput();
      }
    }

    /**
     The next item.  Log entries and due stats come first; the range is reported complete once,
     after the final stats and if an event past it was seen; nothing comes after that.
     */
    method PollNext() returns (r: Poll)
      requires Valid() && !completed
      modifies this, inp
      ensures Valid()
      ensures emitted == old(emitted) + EventsOf(r) && statsTotal == old(statsTotal) + StatsOf(r)
      ensures r == Emits(RangeComplete) <==> sentBeyondRange && !old(sentBeyondRange) && seenBeyondRange
      ensures r == Emits(Error) <==> errored && !old(errored)
      ensures old(sentBeyondRange) ==> r == Finished && sentBeyondRange && seenBeyondRange == old(seenBeyondRange)
      ensures old(errored) ==> errored && (r == Finished || r == Emits(Log))
      ensures if r == Finished then completed && (errored || sentBeyondRange) else !completed && Nearer()
      ensures old(logItems) > 0 ==> r == Emits(Log)
      ensures old(logItems) == 0 && !old(errored) && old(parsedBytes) >= diskStatsEvery ==> r == Emits(Stats(old(parsedBytes)))
    {
      hide Accounted, Faithful, Waiting, State, EventsIn, StatsIn, CompleteIsLast, Valid;
      var again;
      again, r := PollOnce();
      while again
        invariant Valid()
        invariant again ==> Silently()
        invariant !again ==> emitted == old(emitted) + EventsOf(r) && statsTotal == old(statsTotal) + StatsOf(r)
        invariant !again ==> (r == Emits(RangeComplete) <==> sentBeyondRange && !old(sentBeyondRange) && seenBeyondRange)
        invariant !again ==> (r == Emits(Error) <==> errored && !old(errored))
        invariant old(sentBeyondRange) ==> !again && r == Finished && sentBeyondRange && seenBeyondRange == old(seenBeyondRange)
        invariant old(errored) ==> !again && errored && (r == Finished || r == Emits(Log))
        invariant !again ==> if r == Finished then completed && (errored || sentBeyondRange) else !completed && Nearer()
        invariant old(logItems) > 0 ==> !again && r == Emits(Log)
        invariant old(logItems) == 0 && !old(errored) && old(parsedBytes) >= diskStatsEvery ==> !again && r == Emits(Stats(old(parsedBytes)))
        decreases again, Phase()
      {
        again, r := PollOnce();
      }
    }

    method ReportStats()
      requires Valid() && !errored
      modifies this`parsedBytes, this`statsTotal
      ensures Valid() && Accounted() && parsedBytes == 0 && statsTotal == old(statsTotal) + old(parsedBytes)
    {
      statsTotal := statsTotal + parsedBytes;
      parsedBytes := 0;
    }

    /** Nothing has been given out yet. */
    ghost predicate Fresh()
      reads this
    {
      received == [] && emitted == [] && statsTotal == 0 && !errored && !faulted && !sentBeyondRange && !completed
    }

    /** Polls to the end. */
    method Drain() returns (items: seq<Item>)
      requires Valid() && Fresh()
      modifies this, inp
      ensures Valid() && completed && (errored || sentBeyondRange)
      ensures EventsIn(items) == emitted && StatsIn(items) == statsTotal
      ensures Error in items <==> errored
      ensures RangeComplete in items <==> sentBeyondRange && seenBeyondRange
      ensures CompleteIsLast(items)
    {
      hide Valid, EventsIn, StatsIn, CompleteIsLast, EventsOf, StatsOf;
      items := [];
      NoItems();
      while !completed
        invariant Valid()
        invariant completed ==> errored || sentBeyondRange
        invariant EventsIn(items) == emitted && StatsIn(items) == statsTotal
        invariant Error in items <==> errored
        invariant RangeComplete in items <==> sentBeyondRange && seenBeyondRange
        invariant CompleteIsLast(items)
        decreases !completed, Phase(), |inp.inp|, logItems, parsedBytes
      {
        var r := PollNext();
        NothingIn(r);
        if r.Emits? {
          OneMore(items, r.item);
          items := items + [r.item];
        }
      }
    }
  }

  lemma NoItems()
    ensures EventsIn([]) == [] && StatsIn([]) == 0 && CompleteIsLast([])
  {}

  lemma NothingIn(r: Poll)
    ensures !r.Emits? ==> EventsOf(r) == [] && StatsOf(r) == 0
    ensures forall events: seq<Event> :: events + [] == events
  {}
}
