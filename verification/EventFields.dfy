/**
 The fields of an event where they stand in its bytes, which events are given out and which are
 withheld, and what the parser waits for, in numbers.
 */
module EventFields {
  import opened Bytes
  import opened BigEndian
  import opened EventFormat
  import opened Netpod
  import opened EventChunker

  // ---------- the bytes of an event ----------

  /** Bit 128 of the flags, at byte 42: the values are compressed, and a byte for the method follows the type. */
  predicate Compressed(b: seq<byte>)
    requires 48 <= |b|
  {
    b[42] as nat / 128 == 1
  }

  /** Bit 16: a byte for the number of dimensions and four bytes for each follow. */
  predicate Shaped(b: seq<byte>)
    requires 48 <= |b|
  {
    b[42] as nat / 16 % 2 == 1
  }

  /** Where the number of dimensions stands, if there is one. */
  function DimsAt(b: seq<byte>): (p: nat)
    requires 48 <= |b|
    ensures p == 44 || p == 45
  {
    if Compressed(b) then 45 else 44
  }

  function Dims(b: seq<byte>): nat
    requires 48 <= |b|
  {
    if Shaped(b) then b[DimsAt(b)] as nat else 0
  }

  /** Where the values start. */
  function ValuesAt(b: seq<byte>): nat
    requires 48 <= |b|
  {
    if Shaped(b) then DimsAt(b) + 1 + 4 * Dims(b) else DimsAt(b)
  }

  /**
   The fields of an event of `len` bytes are as they have to be: no optional part, a type from
   0 to 13 that is not 6, marked as an array if a waveform is asked for, not more than four
   dimensions, room for the values and the length at the end, compressed by method 0 if at all.
   */
  predicate Acceptable(c: Conf, b: seq<byte>, len: nat) {
    && 48 <= len <= |b|
    && b[38] == b[39] == b[40] == b[41] == 255
    && b[43] <= 13 && b[43] != 6
    && (c.shape.Wave? ==> b[42] as nat / 64 % 2 == 1)
    && Dims(b) <= 4 && ValuesAt(b) + 4 <= len
    && (Compressed(b) ==> b[44] == 0)
  }

  /** The event that its bytes show. */
  function Shown(b: seq<byte>, len: nat): Event
    requires 48 <= len <= |b| && Dims(b) <= 4 && ValuesAt(b) + 4 <= len
  {
    var p := DimsAt(b) + 1;
    Event(FromBE(b[12..20]), FromBE(b[20..28]), b[ValuesAt(b)..len - 4],
          if b[43] == 1 then 0 else b[43] as nat,
          b[42] as nat / 32 % 2 == 1,
          if !Shaped(b) then Scalar
          else if Dims(b) == 1 then Wave(FromBE(b[p..p + 4]))
          else if Dims(b) == 2 then Image(FromBE(b[p..p + 4]), FromBE(b[p + 4..p + 8]))
          else Scalar,
          Compressed(b))
  }

  /** It is given out: of the type that is asked for, accepted, with one or two dimensions if it says any, in order, before the end of the range. */
  predicate Wanted(c: Conf, lastTs: nat, b: seq<byte>, len: nat)
    requires 48 <= len <= |b| && Dims(b) <= 4 && ValuesAt(b) + 4 <= len
  {
    var e := Shown(b, len);
    && (Shaped(b) ==> Dims(b) == 1 || Dims(b) == 2)
    && e.scalarType == c.scalarType && c.accepts(e) && lastTs <= e.ts < c.end
  }

  lemma {:induction false} AllOnes(s: seq<byte>)
    requires |s| == 4
    ensures FromBE(s) == 0xFFFF_FFFF <==> s[0] == s[1] == s[2] == s[3] == 255
  {
    FourBytes(s);
  }

  lemma FlagsOf(b: byte)
    ensures Has(b, COMPRESSION) <==> b as nat / 128 == 1
    ensures Has(b, ARRAY) <==> b as nat / 64 % 2 == 1
    ensures Has(b, BIG_ENDIAN) <==> b as nat / 32 % 2 == 1
    ensures Has(b, SHAPE) <==> b as nat / 16 % 2 == 1
  {}

  lemma DecodedIsShown(c: Conf, b: seq<byte>, len: nat)
    requires 28 <= |b| && len <= |b|
    ensures Decode(c, b, len).Decoded? <==> Acceptable(c, b, len)
    ensures Acceptable(c, b, len) ==>
      var d := Decode(c, b, len);
      && d.event == Shown(b, len)
      && (d.keep <==> (Shaped(b) ==> Dims(b) == 1 || Dims(b) == 2) && d.event.scalarType == c.scalarType && c.accepts(d.event))
  {
    hide FromBE, Has;
    if 48 <= len {
      FlagsOf(b[42]);
      AllOnes(b[38..42]);
    }
  }

  /**
   What is made of an event at the front of a buffer that has all of it: it stops reading, or
   fails, or is taken; and if it is taken it is given out exactly if it is wanted, with the
   fields its bytes show.
   */
  lemma EventTaken(c: Conf, st: St, b: seq<byte>)
    requires !st.inHeader && EventFrame(c, st, b).Took?
    ensures var (f, len) := (EventFrame(c, st, b), FromBE(b[0..4]));
            && f.len == len && Acceptable(c, b, len)
            && f.event == (if Wanted(c, st.lastTs, b, len) then Some(Shown(b, len)) else None)
            && f.st.lastTs == FromBE(b[12..20])
  {
    hide FromBE, Decode, Seen;
    DecodedIsShown(c, b, FromBE(b[0..4]));
    SeenTime(c, st, FromBE(b[12..20]));
  }

  lemma SeenTime(c: Conf, st: St, ts: nat)
    ensures Seen(c, st, ts).lastTs == ts
  {}

  /** The longest event of each shape. */
  function Longest(shape: Shape): nat {
    match shape
    case Scalar => 65536
    case Wave(_) => 33554432
    case Image(_, _) => 209715200
  }

  /**
   An event that is all there is taken unless its fields are not as they have to be, it is too
   long, it is the 101st before the range or the second one past it; at this one reading stops.
   */
  lemma WhenTaken(c: Conf, st: St, b: seq<byte>)
    requires !st.inHeader && 28 <= |b| && 20 <= FromBE(b[0..4]) <= |b|
    ensures var (f, len, ts) := (EventFrame(c, st, b), FromBE(b[0..4]), FromBE(b[12..20]));
            var short := len <= Longest(c.shape);
            && (f.Stop? <==> short && ts >= c.end && st.after >= 1)
            && (f.Took? <==> short && Acceptable(c, b, len) && !(ts >= c.end && st.after >= 1) && !(ts < c.beg && st.before >= 100))
            && (f.Fail? <==> !f.Stop? && !f.Took?)
  {
    hide FromBE, Decode;
    Limits(c.shape);
    DecodedIsShown(c, b, FromBE(b[0..4]));
  }

  /** The file header: version 0, its length from 8 to 511, and the length again in its last four bytes. */
  lemma HeaderTaken(st: St, b: seq<byte>)
    requires 6 <= |b|
    ensures var (f, len) := (HeaderFrame(st, b), FromBE(b[2..6]));
            && (f.Took? <==> b[0] == b[1] == 0 && 8 <= len <= 511 && len + 2 <= |b| && FromBE(b[len - 2..len + 2]) == len)
            && (f.More? <==> b[0] == b[1] == 0 && 1 <= len <= 511 && |b| < len + 2)
            && (f.Took? ==> f.len == len + 2)
  {
    TwoBytes(b[0..2]);
    hide FromBE;
  }

  lemma TwoBytes(s: seq<byte>)
    requires |s| == 2
    ensures FromBE(s) == 0 <==> s[0] == s[1] == 0
  {
    assert s[..1][..0] == [];
    assert FromBE(s[..1]) == s[0] as nat;
  }

  // ---------- all events of a stream ----------

  /** An event that was taken: the time of the one before, and its bytes with all that follows. */
  datatype Taken = Taken(lastTs: nat, bytes: seq<byte>)

  /** The events that are taken from a buffer, in their order. */
  function TakenFrom(c: Conf, st: St, buf: seq<byte>): seq<Taken>
    decreases |buf|
  {
    if st.done then []
    else
      match FrameOf(c, st, buf)
      case Took(len, st1, _) => (if st.inHeader then [] else [Taken(st.lastTs, buf)]) + TakenFrom(c, st1, buf[len..])
      case _ => []
  }

  /** Those of them that are wanted, with the fields their bytes show. */
  function WantedOf(c: Conf, taken: seq<Taken>): seq<Event> {
    if taken == [] then []
    else
      var (t, rest) := (taken[0], WantedOf(c, taken[1..]));
      if |t.bytes| < 4 || !Acceptable(c, t.bytes, FromBE(t.bytes[0..4])) then rest
      else
        var len := FromBE(t.bytes[0..4]);
        if Wanted(c, t.lastTs, t.bytes, len) then [Shown(t.bytes, len)] + rest else rest
  }

  /** What is given out are the wanted ones of the events that are taken, all of them and no other. */
  lemma {:induction false} GivenOutIsWanted(c: Conf, max: nat, st: St, buf: seq<byte>)
    ensures Run(c, max, st, buf).events == WantedOf(c, TakenFrom(c, st, buf))
    decreases |buf|
  {
    hide EventFrame, HeaderFrame, FromBE, Acceptable, Wanted, Shown;
    if !st.done {
      var f := FrameOf(c, st, buf);
      if f.Took? {
        GivenOutIsWanted(c, max, f.st, buf[f.len..]);
        var rest := TakenFrom(c, f.st, buf[f.len..]);
        if st.inHeader {
          assert [] + rest == rest;
          HeaderGivesNothing(st, buf);
        } else {
          EventTaken(c, st, buf);
          assert ([Taken(st.lastTs, buf)] + rest)[1..] == rest;
          assert 4 <= |buf|;
        }
      }
    }
  }

  lemma HeaderGivesNothing(st: St, buf: seq<byte>)
    ensures HeaderFrame(st, buf).Took? ==> HeaderFrame(st, buf).event == None
  {
    hide U;
  }

  /** So every event that is given out has the type asked for, is accepted, and comes before the end of the range. */
  lemma {:induction false} GivenOutFits(c: Conf, taken: seq<Taken>)
    ensures forall e :: e in WantedOf(c, taken) ==> e.scalarType == c.scalarType && c.accepts(e) && e.ts < c.end
  {
    hide Shown, FromBE;
    if taken != [] { GivenOutFits(c, taken[1..]); }
  }

  /** How many of the events taken come before the range, and how many past it. */
  function Before(c: Conf, taken: seq<Taken>): nat {
    if taken == [] then 0 else (if |taken[0].bytes| >= 20 && FromBE(taken[0].bytes[12..20]) < c.beg then 1 else 0) + Before(c, taken[1..])
  }

  function Past(c: Conf, taken: seq<Taken>): nat {
    if taken == [] then 0 else (if |taken[0].bytes| >= 20 && FromBE(taken[0].bytes[12..20]) >= c.end then 1 else 0) + Past(c, taken[1..])
  }

  /** Never are more than 100 events taken before the range, or more than one past it; reading stops at one more past it, and at no other place. */
  lemma {:induction false} FewOutside(c: Conf, max: nat, st: St, buf: seq<byte>)
    requires !st.done && st.before <= 100 && st.after <= 1
    ensures var (r, t) := (Run(c, max, st, buf), TakenFrom(c, st, buf));
            && st.before + Before(c, t) <= 100 && st.after + Past(c, t) <= 1
            && (r.st.done ==> st.after + Past(c, t) == 1)
    decreases |buf|
  {
    hide EventFrame, HeaderFrame, FromBE;
    var f := FrameOf(c, st, buf);
    if f.Took? {
      var rest := TakenFrom(c, f.st, buf[f.len..]);
      if st.inHeader {
        HeaderCounts(st, buf);
        assert [] + rest == rest;
      } else {
        EventCounts(c, st, buf);
        assert ([Taken(st.lastTs, buf)] + rest)[1..] == rest;
      }
      FewOutside(c, max, f.st, buf[f.len..]);
    } else if f.Stop? {
      if st.inHeader { HeaderCounts(st, buf); } else { EventCounts(c, st, buf); }
    }
  }

  lemma HeaderCounts(st: St, buf: seq<byte>)
    ensures var f := HeaderFrame(st, buf); !f.Stop? && (f.Took? ==> f.st == st.(inHeader := false))
  {
    hide U;
  }

  lemma EventCounts(c: Conf, st: St, buf: seq<byte>)
    requires !st.done && st.before <= 100 && st.after <= 1
    ensures var f := EventFrame(c, st, buf);
            && (f.Stop? ==> st.after == 1)
            && (f.Took? ==>
                  && 48 <= |buf| && !f.st.done && f.st.before <= 100 && f.st.after <= 1
                  && f.st.before == st.before + (if FromBE(buf[12..20]) < c.beg then 1 else 0)
                  && f.st.after == st.after + if FromBE(buf[12..20]) >= c.end then 1 else 0)
  {
    hide FromBE, Decode;
  }

  // ---------- the waiting limits ----------

  /** How long an event may be to be waited for, and to be read at all. */
  lemma Limits(shape: Shape)
    ensures match shape
            case Scalar => NeedMinMax(shape) == 16384 && LengthLimit(shape) == 65536
            case Wave(_) => NeedMinMax(shape) == 6144000 && LengthLimit(shape) == 33554432
            case Image(_, _) => NeedMinMax(shape) == 83886080 && LengthLimit(shape) == 209715200
  {}

  /**
   The length of an event, when nothing else of it has arrived, is an error unless it is from
   20 to 16384 bytes for scalars, 6144000 for waveforms, 83886080 for images.
   */
  lemma LengthAlone(c: Conf, st: St, b: seq<byte>)
    requires !st.inHeader && !st.done && |b| == 4
    ensures Run(c, NeedMinMax(c.shape), st, b).ok <==>
      20 <= FromBE(b) && match c.shape
                         case Scalar => FromBE(b) <= 16384
                         case Wave(_) => FromBE(b) <= 6144000
                         case Image(_, _) => FromBE(b) <= 83886080
  {
    hide FromBE;
    assert b[0..4] == b;
  }

  /** A length above 65536 for scalars, 33554432 for waveforms, 209715200 for images is an error however much has arrived. */
  lemma LengthTooLarge(c: Conf, st: St, b: seq<byte>)
    requires !st.inHeader && 4 <= |b|
    ensures (match c.shape
             case Scalar => FromBE(b[0..4]) > 65536
             case Wave(_) => FromBE(b[0..4]) > 33554432
             case Image(_, _) => FromBE(b[0..4]) > 209715200) ==> FrameOf(c, st, b).Fail?
    ensures FromBE(b[0..4]) < 20 ==> FrameOf(c, st, b).Fail?
  {
    hide FromBE, Decode, Seen;
  }
}
