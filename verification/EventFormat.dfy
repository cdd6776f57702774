/** The frames of a data file, and what reading them one after the other means. */
module EventFormat {
  import opened Bytes
  import opened BigEndian
  import opened Netpod

  datatype Event = Event(ts: nat, pulse: nat, data: seq<byte>, scalarType: nat, bigEndian: bool, shape: Shape, compressed: bool)

  /** What is asked for; `accepts` is the check of an event's shape against the requested one. */
  datatype Conf = Conf(beg: nat, end: nat, scalarType: nat, shape: Shape, accepts: Event -> bool)

  /** What is carried from frame to frame. */
  datatype St = St(inHeader: bool, lastTs: nat, before: nat, after: nat, beyond: bool, done: bool)

  const START: St := St(true, 0, 0, 0, false, false)
  const START_AT_EVENT: St := St(false, 0, 0, 0, false, false)

  /** What stands at the front of a buffer. */
  datatype Frame = More(need: nat) | Fail | Stop(st: St) | Took(len: nat, st: St, event: Option<Event>)

  /** The unsigned number in `n` bytes from `i` on. */
  function U(buf: seq<byte>, i: nat, n: nat): nat
    requires i + n <= |buf|
  {
    FromBE(buf[i..i + n])
  }

  lemma UPrefix(a: seq<byte>, b: seq<byte>, i: nat, n: nat)
    requires i + n <= |a|
    ensures U(a + b, i, n) == U(a, i, n)
  {
    assert (a + b)[i..i + n] == a[i..i + n];
  }

  // ---------- the file header ----------

  function HeaderFrame(st: St, buf: seq<byte>): (f: Frame)
    ensures f.More? ==> |buf| < f.need <= 513 && 6 <= f.need
    ensures f.Took? ==> 10 <= f.len <= 513 && f.len <= |buf|
  {
    if |buf| < 6 then More(6)
    else if U(buf, 0, 2) != 0 then Fail
    else
      var len := U(buf, 2, 4);
      if len == 0 || len >= 512 then Fail
      else if |buf| < len + 2 then More(len + 2)
      else if len < 8 then Fail
      else if U(buf, len - 2, 4) != len then Fail
      else Took(len + 2, st.(inHeader := false), None)
  }

  // ---------- events ----------

  const COMPRESSION: nat := 0x80
  const ARRAY: nat := 0x40
  const BIG_ENDIAN: nat := 0x20
  const SHAPE: nat := 0x10

  /** A single bit of the flags. */
  predicate Has(flags: byte, bit: nat)
    requires bit > 0
  {
    flags as nat / bit % 2 == 1
  }

  function LengthLimit(shape: Shape): nat {
    match shape
    case Scalar => 64 * 1024
    case Wave(_) => 1024 * 1024 * 32
    case Image(_, _) => 1024 * 1024 * 200
  }

  /** The scalar type a type index stands for: 0 and 1 are both boolean, 6 is no type. */
  function TypeOf(index: byte): Option<nat> {
    if index > 13 || index == 6 then None
    else if index == 1 then Some(0)
    else Some(index as nat)
  }

  datatype Decoded = Malformed | Decoded(event: Event, keep: bool)

  /** The dimensions after the flags. */
  function ShapeOf(buf: seq<byte>, p: nat, dims: nat): Option<Shape>
    requires p + 4 * dims <= |buf|
  {
    if dims == 1 then Some(Wave(U(buf, p, 4)))
    else if dims == 2 then Some(Image(U(buf, p, 4), U(buf, p + 4, 4)))
    else None
  }

  /**
   The fields of the event of `len` bytes at the front, from the alarm fields on.  A frame too
   short for its fields is malformed, as is one with more than four dimensions.
   */
  function Decode(c: Conf, buf: seq<byte>, len: nat): Decoded
    requires 28 <= |buf| && len <= |buf|
  {
    if len < 48 then Malformed
    else if U(buf, 38, 4) != 0xFFFF_FFFF then Malformed
    else
      var flags := buf[42];
      var scalarType := TypeOf(buf[43]);
      if scalarType.None? then Malformed
      else if c.shape.Wave? && !Has(flags, ARRAY) then Malformed
      else
        var p := if Has(flags, COMPRESSION) then 45 else 44;
        var dims := if Has(flags, SHAPE) then buf[p] as nat else 0;
        var q := if Has(flags, SHAPE) then p + 1 else p;
        var p1 := q + 4 * dims;
        if dims > 4 || p1 + 4 > len then Malformed
        else if Has(flags, COMPRESSION) && buf[44] != 0 then Malformed
        else
          var shape := if Has(flags, SHAPE) then ShapeOf(buf, q, dims) else Some(Scalar);
          var event := Event(U(buf, 12, 8), U(buf, 20, 8), buf[p1..len - 4], scalarType.value,
                             Has(flags, BIG_ENDIAN), if shape.Some? then shape.value else Scalar, Has(flags, COMPRESSION));
          Decoded(event, shape.Some? && scalarType.value == c.scalarType && c.accepts(event))
  }

  /** The effect of a time stamp on what is carried along: the second one past the range is the last looked at. */
  function Seen(c: Conf, st: St, ts: nat): St {
    var after := if ts >= c.end then st.after + 1 else st.after;
    St(false, ts, if ts < c.beg then st.before + 1 else st.before, after, st.beyond || ts >= c.end, ts >= c.end && after >= 2)
  }

  function EventFrame(c: Conf, st: St, buf: seq<byte>): (f: Frame)
    ensures f.More? ==> |buf| < f.need && 4 <= f.need
    ensures f.Took? ==> 48 <= f.len <= |buf| && !f.st.done
    ensures f.Stop? ==> 28 <= |buf| && f.st.done
  {
    if |buf| < 4 then More(4)
    else
      var len := U(buf, 0, 4);
      if len < 20 || len >= 0x8000_0000 then Fail
      else if len > LengthLimit(c.shape) then Fail
      else if |buf| < len then More(len)
      else if |buf| < 28 then Fail
      else
        var ts := U(buf, 12, 8);
        var st1 := Seen(c, st, ts);
        if st1.done then Stop(st1.(before := st.before))
        else if st1.before > 100 && ts < c.beg then Fail
        else
          match Decode(c, buf, len)
          case Malformed => Fail
          case Decoded(e, keep) =>
            Took(len, st1, if keep && ts >= st.lastTs && ts < c.end then Some(e) else None)
  }

  function FrameOf(c: Conf, st: St, buf: seq<byte>): (f: Frame)
    ensures f.More? ==> |buf| < f.need && (if st.inHeader then 6 else 4) <= f.need
    ensures f.Took? ==> 0 < f.len <= |buf| && !(f.st.done && !st.done)
    ensures f.Stop? ==> f.st.done
  {
    if st.inHeader then HeaderFrame(st, buf) else EventFrame(c, st, buf)
  }

  lemma NothingYet(c: Conf, st: St, buf: seq<byte>)
    ensures |buf| < 4 && !st.inHeader ==> FrameOf(c, st, buf) == More(4)
    ensures |buf| < 6 && st.inHeader ==> FrameOf(c, st, buf) == More(6)
  {}

  // ---------- all frames of a buffer ----------

  /** `ok` is false if a frame fails or the next one is longer than the reader is ready to wait for. */
  datatype Result = Result(ok: bool, events: seq<Event>, st: St, rest: seq<byte>)

  function Prefixed(e: Option<Event>, r: Result): Result {
    if e.None? then r else r.(events := [e.value] + r.events)
  }

  function Run(c: Conf, max: nat, st: St, buf: seq<byte>): (r: Result)
    decreases |buf|
  {
    if st.done then Result(true, [], st, buf)
    else
      match FrameOf(c, st, buf)
      case More(n) => Result(n <= max, [], st, buf)
      case Fail => Result(false, [], st, buf)
      case Stop(st1) => Result(true, [], st1, buf)
      case Took(len, st1, e) => Prefixed(e, Run(c, max, st1, buf[len..]))
  }

  /** The length field of every event that is taken or stopped at is in [28, max]. */
  predicate Regular(c: Conf, max: nat, st: St, buf: seq<byte>)
    decreases |buf|
  {
    st.done ||
    match FrameOf(c, st, buf)
    case More(_) => true
    case Fail => true
    case Stop(_) => |buf| >= 4 && 28 <= U(buf, 0, 4) <= max
    case Took(len, st1, _) => len <= max && Regular(c, max, st1, buf[len..])
  }

  // ---------- a frame is the same in any longer buffer ----------

  lemma HeaderStable(st: St, a: seq<byte>, b: seq<byte>)
    ensures !HeaderFrame(st, a).More? ==> HeaderFrame(st, a + b) == HeaderFrame(st, a)
    ensures HeaderFrame(st, a).More? && |a + b| < HeaderFrame(st, a).need ==> HeaderFrame(st, a + b) == HeaderFrame(st, a)
  {
    hide U;
    if |a| >= 6 {
      UPrefix(a, b, 0, 2);
      UPrefix(a, b, 2, 4);
      var len := U(a, 2, 4);
      if 8 <= len && len + 2 <= |a| { UPrefix(a, b, len - 2, 4); }
    }
  }

  lemma DecodeStable(c: Conf, a: seq<byte>, b: seq<byte>, len: nat)
    requires 28 <= |a| && len <= |a|
    ensures Decode(c, a + b, len) == Decode(c, a, len)
  {
    hide U, Has, TypeOf;
    if len >= 48 {
      UPrefix(a, b, 38, 4);
      UPrefix(a, b, 12, 8);
      UPrefix(a, b, 20, 8);
      var flags := a[42];
      var p := if Has(flags, COMPRESSION) then 45 else 44;
      var dims := if Has(flags, SHAPE) then a[p] as nat else 0;
      var q := if Has(flags, SHAPE) then p + 1 else p;
      if dims <= 4 && q + 4 * dims + 4 <= len {
        assert (a + b)[q + 4 * dims..len - 4] == a[q + 4 * dims..len - 4];
        ShapeStable(a, b, q, dims);
      }
    }
  }

  lemma ShapeStable(a: seq<byte>, b: seq<byte>, p: nat, dims: nat)
    requires p + 4 * dims <= |a|
    ensures ShapeOf(a + b, p, dims) == ShapeOf(a, p, dims)
  {
    if dims == 1 { UPrefix(a, b, p, 4); }
    if dims == 2 { UPrefix(a, b, p, 4); UPrefix(a, b, p + 4, 4); }
  }

  /** An event that is taken, or stopped at, is so in every longer buffer; a shorter one waits for as much. */
  lemma EventStable(c: Conf, st: St, a: seq<byte>, b: seq<byte>)
    ensures EventFrame(c, st, a).Took? || EventFrame(c, st, a).Stop? ==> EventFrame(c, st, a + b) == EventFrame(c, st, a)
    ensures EventFrame(c, st, a).More? && |a + b| < EventFrame(c, st, a).need ==> EventFrame(c, st, a + b) == EventFrame(c, st, a)
    ensures EventFrame(c, st, a).Fail? ==>
      var f := EventFrame(c, st, a + b); f.Fail? || (f.Stop? && U(a + b, 0, 4) < 28)
    ensures EventFrame(c, st, a).More? ==>
      var f := EventFrame(c, st, a + b);
      && (f.Took? ==> EventFrame(c, st, a).need <= f.len)
      && (f.More? && EventFrame(c, st, a).need != 4 ==> f == EventFrame(c, st, a))
      && (f.Stop? ==> EventFrame(c, st, a).need == 4 || EventFrame(c, st, a).need == U(a + b, 0, 4))
  {
    hide U, Decode, Seen;
    if |a| >= 4 {
      UPrefix(a, b, 0, 4);
      var len := U(a, 0, 4);
      if |a| >= len && |a| >= 28 {
        UPrefix(a, b, 12, 8);
        DecodeStable(c, a, b, len);
      }
    }
  }

  lemma FrameStable(c: Conf, st: St, a: seq<byte>, b: seq<byte>)
    ensures FrameOf(c, st, a).Took? || FrameOf(c, st, a).Stop? ==> FrameOf(c, st, a + b) == FrameOf(c, st, a)
    ensures FrameOf(c, st, a).More? && |a + b| < FrameOf(c, st, a).need ==> FrameOf(c, st, a + b) == FrameOf(c, st, a)
  {
    hide EventFrame, HeaderFrame;
    if st.inHeader { HeaderStable(st, a, b); } else { EventStable(c, st, a, b); }
  }

  // ---------- resuming ----------

  function Joined(events: seq<Event>, more: Result): Result {
    more.(events := events + more.events)
  }

  function Given(e: Option<Event>): seq<Event> {
    if e.Some? then [e.value] else []
  }

  /** One frame more, after `events`. */
  lemma RunFrame(c: Conf, max: nat, st: St, buf: seq<byte>, events: seq<Event>)
    requires !st.done
    ensures var (r, f) := (Joined(events, Run(c, max, st, buf)), FrameOf(c, st, buf));
            && (f.More? ==> r == Result(f.need <= max, events, st, buf))
            && (f.Fail? ==> !r.ok)
            && (f.Stop? ==> r == Result(true, events, f.st, buf))
            && (f.Took? ==> r == Joined(events + Given(f.event), Run(c, max, f.st, buf[f.len..])))
  {
    hide FrameOf;
    var f := FrameOf(c, st, buf);
    assert events + [] == events;
    if f.Took? {
      var more := Run(c, max, f.st, buf[f.len..]);
      assert events + (Given(f.event) + more.events) == events + Given(f.event) + more.events;
      assert [] + more.events == more.events;
    }
  }

  /** Reading goes on where it stopped: nothing depends on where a buffer ends. */
  lemma {:induction false} Resume(c: Conf, max: nat, st: St, a: seq<byte>, b: seq<byte>)
    requires Run(c, max, st, a).ok
    ensures var r := Run(c, max, st, a);
            Run(c, max, st, a + b) == if r.st.done then r.(rest := r.rest + b) else Joined(r.events, Run(c, max, r.st, r.rest + b))
    decreases |a|
  {
    hide FrameOf;
    FrameStable(c, st, a, b);
    if !st.done {
      match FrameOf(c, st, a)
      case More(_) =>
        var r := Run(c, max, st, a + b);
        assert [] + r.events == r.events;
      case Stop(_) =>
      case Took(len, st1, e) =>
        assert (a + b)[len..] == a[len..] + b;
        Resume(c, max, st1, a[len..], b);
        var r := Run(c, max, st1, a[len..]);
        PrefixedJoined(e, r, Run(c, max, r.st, r.rest + b));
    }
  }

  lemma PrefixedJoined(e: Option<Event>, r: Result, more: Result)
    ensures Prefixed(e, Joined(r.events, more)) == Joined(Prefixed(e, r).events, more)
  {
    if e.Some? { assert [e.value] + (r.events + more.events) == [e.value] + r.events + more.events; }
  }

  /** In a buffer that is regular, what fails at first fails for good. */
  lemma {:induction false} StaysFailed(c: Conf, max: nat, st: St, a: seq<byte>, b: seq<byte>)
    requires 513 <= max && Regular(c, max, st, a + b) && !Run(c, max, st, a).ok
    ensures !Run(c, max, st, a + b).ok
    decreases |a|
  {
    hide EventFrame, HeaderFrame;
    if st.inHeader { HeaderStable(st, a, b); } else { EventStable(c, st, a, b); }
    var f := FrameOf(c, st, a);
    if f.Took? {
      assert (a + b)[f.len..] == a[f.len..] + b;
      StaysFailed(c, max, f.st, a[f.len..], b);
    }
  }

  lemma {:induction false} RegularPrefix(c: Conf, max: nat, st: St, a: seq<byte>, b: seq<byte>)
    requires Regular(c, max, st, a + b)
    ensures Regular(c, max, st, a)
    decreases |a|
  {
    hide FrameOf, U;
    FrameStable(c, st, a, b);
    if !st.done {
      match FrameOf(c, st, a)
      case More(_) =>
      case Fail =>
      case Stop(_) =>
        StopLength(c, st, a, b);
      case Took(len, st1, _) =>
        assert (a + b)[len..] == a[len..] + b;
        RegularPrefix(c, max, st1, a[len..], b);
    }
  }

  lemma StopLength(c: Conf, st: St, a: seq<byte>, b: seq<byte>)
    requires FrameOf(c, st, a).Stop?
    ensures |a| >= 4 && U(a + b, 0, 4) == U(a, 0, 4)
  {
    UPrefix(a, b, 0, 4);
  }

  /** What is left over waits for more. */
  lemma {:induction false} RestWaits(c: Conf, max: nat, st: St, buf: seq<byte>)
    ensures var r := Run(c, max, st, buf);
            r.ok && !r.st.done ==> FrameOf(c, r.st, r.rest).More? && FrameOf(c, r.st, r.rest).need <= max
    decreases |buf|
  {
    hide FrameOf;
    if !st.done {
      match FrameOf(c, st, buf)
      case More(_) =>
      case Fail =>
      case Stop(_) =>
      case Took(len, st1, e) => RestWaits(c, max, st1, buf[len..]);
    }
  }

  /** What has been read of the stream so far is what reading it in one piece gives. */
  ghost predicate ReadSoFar(c: Conf, max: nat, start: St, received: seq<byte>, emitted: seq<Event>, st: St, left: seq<byte>) {
    Run(c, max, start, received) == Result(true, emitted, st, left)
  }

  lemma ReadOn(c: Conf, max: nat, start: St, received: seq<byte>, emitted: seq<Event>, st: St, left: seq<byte>, got: seq<byte>)
    requires ReadSoFar(c, max, start, received, emitted, st, left) && !st.done
    ensures Run(c, max, start, received + got) == Joined(emitted, Run(c, max, st, left + got))
  {
    hide Run;
    Resume(c, max, start, received, got);
  }

  /** Bytes that are not enough for a frame change nothing. */
  lemma StillWaiting(c: Conf, max: nat, start: St, received: seq<byte>, emitted: seq<Event>, st: St, left: seq<byte>, got: seq<byte>, n: nat)
    requires ReadSoFar(c, max, start, received, emitted, st, left) && !st.done
    requires FrameOf(c, st, left) == More(n) && n <= max && |left + got| < n
    ensures FrameOf(c, st, left + got) == More(n)
    ensures ReadSoFar(c, max, start, received + got, emitted, st, left + got)
  {
    hide FrameOf;
    FrameStable(c, st, left, got);
    ReadOn(c, max, start, received, emitted, st, left, got);
    assert emitted + [] == emitted;
  }

  /** After the stop nothing counts any more. */
  lemma StoppedForGood(c: Conf, max: nat, start: St, received: seq<byte>, more: seq<byte>)
    requires Run(c, max, start, received).ok && Run(c, max, start, received).st.done
    ensures var r := Run(c, max, start, received); Run(c, max, start, received + more) == r.(rest := r.rest + more)
  {
    hide Run;
    Resume(c, max, start, received, more);
  }

  // ---------- where a stream can be cut ----------

  /** A frame that is taken in a longer buffer is taken as soon as all of it is there. */
  lemma TakenWhenThere(c: Conf, st: St, a: seq<byte>, b: seq<byte>)
    requires FrameOf(c, st, a + b).Took? && FrameOf(c, st, a + b).len <= |a|
    ensures FrameOf(c, st, a) == FrameOf(c, st, a + b)
  {
    hide U, EventFrame;
    if st.inHeader {
      HeaderStable(st, a, b);
      if |a| >= 6 { UPrefix(a, b, 0, 2); UPrefix(a, b, 2, 4); }
    } else {
      EventStable(c, st, a, b);
    }
  }

  /**
   Where to cut a stream so that what arrives first cannot be read: at the first event whose
   length is out of bounds, behind the length if it is too long to wait for, and behind the
   event if it is too short.
   */
  function FailingCut(c: Conf, max: nat, st: St, buf: seq<byte>): nat
    decreases |buf|
  {
    if st.done then 0
    else
      match FrameOf(c, st, buf)
      case More(_) => 0
      case Fail => 0
      case Stop(_) => if |buf| < 4 || U(buf, 0, 4) > max then 4 else U(buf, 0, 4)
      case Took(len, st1, _) => if len > max then 4 else len + FailingCut(c, max, st1, buf[len..])
  }

  lemma {:induction false} CutFails(c: Conf, max: nat, st: St, buf: seq<byte>)
    requires 513 <= max && Run(c, max, st, buf).ok && !Regular(c, max, st, buf)
    ensures var k := FailingCut(c, max, st, buf); k <= |buf| && !Run(c, max, st, buf[..k]).ok
    decreases |buf|
  {
    hide FrameOf, U;
    var (f, k) := (FrameOf(c, st, buf), FailingCut(c, max, st, buf));
    match f
    case Stop(_) =>
      CutAtLength(c, max, st, buf);
    case Took(len, st1, _) =>
      if len > max {
        CutAtLength(c, max, st, buf);
      } else {
        CutFails(c, max, st1, buf[len..]);
        var (a, b) := (buf[..k], buf[k..]);
        assert a + b == buf;
        TakenWhenThere(c, st, a, b);
        assert a[len..] == buf[len..][..k - len];
      }
  }

  lemma CutAtLength(c: Conf, max: nat, st: St, buf: seq<byte>)
    requires 513 <= max && !st.done
    requires match FrameOf(c, st, buf)
             case Stop(_) => |buf| >= 4 ==> U(buf, 0, 4) < 28 || U(buf, 0, 4) > max
             case Took(len, _, _) => len > max
             case _ => false
    ensures var k := FailingCut(c, max, st, buf); k <= |buf| && !Run(c, max, st, buf[..k]).ok
  {
    hide U, Decode, Seen;
    var k := FailingCut(c, max, st, buf);
    assert buf[..k] + buf[k..] == buf;
    UPrefix(buf[..k], buf[k..], 0, 4);
  }

  /**
   A stream that can be read in one piece can be read in any pieces if and only if every event
   up to where reading stops has a length in bounds: no prefix of it fails.
   */
  lemma RegularIffAnyCut(c: Conf, max: nat, st: St, buf: seq<byte>)
    requires 513 <= max && Run(c, max, st, buf).ok
    ensures Regular(c, max, st, buf) <==> forall k :: 0 <= k <= |buf| ==> Run(c, max, st, buf[..k]).ok
  {
    hide Run, Regular, FailingCut;
    if Regular(c, max, st, buf) {
      forall k | 0 <= k <= |buf|
        ensures Run(c, max, st, buf[..k]).ok
      {
        assert buf[..k] + buf[k..] == buf;
        if !Run(c, max, st, buf[..k]).ok { StaysFailed(c, max, st, buf[..k], buf[k..]); }
      }
    } else {
      CutFails(c, max, st, buf);
    }
  }
}
