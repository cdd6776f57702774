/** The SSE2 and AVX2 instructions the kernels use, on registers of 16 bytes; a 32 byte register is two of them. */
module Simd {
  import opened Bytes
  import opened BitWords
  import opened Matrix

  // ---------- unpack instructions ----------

  /** unpacklo_epi8, _epi16, _epi32, _epi64: the low halves of two registers, interleaved in lanes. */
  function UnpackLo8<T>(a: seq<T>, b: seq<T>): (r: seq<T>)
    requires |a| == |b| == 16
    ensures |r| == 16
  {
    seq(16, p requires 0 <= p < 16 => (if p % 2 == 0 then a else b)[p / 2])
  }

  function UnpackLo16<T>(a: seq<T>, b: seq<T>): (r: seq<T>)
    requires |a| == |b| == 16
    ensures |r| == 16
  {
    seq(16, p requires 0 <= p < 16 => (if p / 2 % 2 == 0 then a else b)[p / 4 * 2 + p % 2])
  }

  function UnpackLo32<T>(a: seq<T>, b: seq<T>): (r: seq<T>)
    requires |a| == |b| == 16
    ensures |r| == 16
  {
    seq(16, p requires 0 <= p < 16 => (if p / 4 % 2 == 0 then a else b)[p / 8 * 4 + p % 4])
  }

  function UnpackLo64<T>(a: seq<T>, b: seq<T>): (r: seq<T>)
    requires |a| == |b| == 16
    ensures |r| == 16
  {
    a[..8] + b[..8]
  }

  function SwapHalves<T>(a: seq<T>): (r: seq<T>)
    requires |a| == 16
    ensures |r| == 16
  {
    a[8..] + a[..8]
  }

  /** The same for the high halves. */
  function UnpackHi8<T>(a: seq<T>, b: seq<T>): (r: seq<T>)
    requires |a| == |b| == 16
    ensures |r| == 16
  {
    UnpackLo8(SwapHalves(a), SwapHalves(b))
  }

  function UnpackHi16<T>(a: seq<T>, b: seq<T>): (r: seq<T>)
    requires |a| == |b| == 16
    ensures |r| == 16
  {
    UnpackLo16(SwapHalves(a), SwapHalves(b))
  }

  function UnpackHi32<T>(a: seq<T>, b: seq<T>): (r: seq<T>)
    requires |a| == |b| == 16
    ensures |r| == 16
  {
    UnpackLo32(SwapHalves(a), SwapHalves(b))
  }

  function UnpackHi64<T>(a: seq<T>, b: seq<T>): (r: seq<T>)
    requires |a| == |b| == 16
    ensures |r| == 16
  {
    UnpackLo64(SwapHalves(a), SwapHalves(b))
  }

  // ---------- where the bytes of a register come from ----------

  /** A register layout: where byte 0 comes from, and how far each bit of a byte number moves. */
  datatype Layout = Layout(base: nat, w3: nat, w2: nat, w1: nat, w0: nat)

  function Address(l: Layout, p: nat): nat {
    l.base + (if p / 8 % 2 == 1 then l.w3 else 0) + (if p / 4 % 2 == 1 then l.w2 else 0)
    + (if p / 2 % 2 == 1 then l.w1 else 0) + (if p % 2 == 1 then l.w0 else 0)
  }

  /** Register `r` holds bytes of `f` in the layout `l`. */
  predicate Holds(r: seq<byte>, f: seq<byte>, l: Layout) {
    |r| == 16 && forall p :: 0 <= p < 16 ==> Address(l, p) < |f| && r[p] == f[Address(l, p)]
  }

  /** A register loaded from `x` on. */
  lemma LoadHolds(f: seq<byte>, x: nat)
    requires x + 16 <= |f|
    ensures Holds(f[x..x + 16], f, Layout(x, 8, 4, 2, 1))
  {}

  /** Two registers with the same layout but for where they start. */
  predicate Pair(a: seq<byte>, b: seq<byte>, f: seq<byte>, l: Layout, d: nat) {
    Holds(a, f, l) && Holds(b, f, l.(base := l.base + d))
  }

  /** What an unpack instruction uses of a register: its first half. */
  predicate HalfHolds(r: seq<byte>, f: seq<byte>, l: Layout) {
    |r| == 16 && forall p :: 0 <= p < 8 ==> Address(l, p) < |f| && r[p] == f[Address(l, p)]
  }

  predicate HalfPair(a: seq<byte>, b: seq<byte>, f: seq<byte>, l: Layout, d: nat) {
    HalfHolds(a, f, l) && HalfHolds(b, f, l.(base := l.base + d))
  }

  lemma Halves(a: seq<byte>, f: seq<byte>, l: Layout)
    requires Holds(a, f, l)
    ensures |a| == 16
    ensures HalfHolds(a, f, l) && HalfHolds(SwapHalves(a), f, l.(base := l.base + l.w3))
  {
    var (h, m) := (SwapHalves(a), l.(base := l.base + l.w3));
    forall p | 0 <= p < 8
      ensures Address(l, p) < |f| && a[p] == f[Address(l, p)]
      ensures Address(m, p) < |f| && h[p] == f[Address(m, p)]
    {
      assert h[p] == a[8 + p] && Address(l, 8 + p) == Address(m, p);
    }
  }

  lemma PairHalves(a: seq<byte>, b: seq<byte>, f: seq<byte>, l: Layout, d: nat)
    requires Pair(a, b, f, l, d)
    ensures |a| == |b| == 16
    ensures HalfPair(a, b, f, l, d) && HalfPair(SwapHalves(a), SwapHalves(b), f, l.(base := l.base + l.w3), d)
  {
    hide HalfHolds, Holds;
    Halves(a, f, l);
    Halves(b, f, l.(base := l.base + d));
    assert l.(base := l.base + d).(base := l.base + d + l.w3) == l.(base := l.base + l.w3).(base := l.base + l.w3 + d);
  }

  lemma Interleaved8(a: seq<byte>, b: seq<byte>, f: seq<byte>, l: Layout, d: nat)
    requires HalfPair(a, b, f, l, d)
    ensures Holds(UnpackLo8(a, b), f, Layout(l.base, l.w2, l.w1, l.w0, d))
  {
    var (r, l') := (UnpackLo8(a, b), Layout(l.base, l.w2, l.w1, l.w0, d));
    forall p | 0 <= p < 16
      ensures Address(l', p) < |f| && r[p] == f[Address(l', p)]
    {
      var q := p / 2;
      if p % 2 == 0 {
        assert r[p] == a[q] && Address(l', p) == Address(l, q);
      } else {
        assert r[p] == b[q] && Address(l', p) == Address(l.(base := l.base + d), q);
      }
    }
  }

  lemma Unpacked8(a: seq<byte>, b: seq<byte>, f: seq<byte>, l: Layout, d: nat)
    requires Pair(a, b, f, l, d)
    ensures Holds(UnpackLo8(a, b), f, Layout(l.base, l.w2, l.w1, l.w0, d))
    ensures Holds(UnpackHi8(a, b), f, Layout(l.base + l.w3, l.w2, l.w1, l.w0, d))
  {
    hide Pair, HalfPair, Holds, UnpackLo8;
    PairHalves(a, b, f, l, d);
    Interleaved8(a, b, f, l, d);
    Interleaved8(SwapHalves(a), SwapHalves(b), f, l.(base := l.base + l.w3), d);
  }

  lemma Interleaved16(a: seq<byte>, b: seq<byte>, f: seq<byte>, l: Layout, d: nat)
    requires HalfPair(a, b, f, l, d)
    ensures Holds(UnpackLo16(a, b), f, Layout(l.base, l.w2, l.w1, d, l.w0))
  {
    var (r, l') := (UnpackLo16(a, b), Layout(l.base, l.w2, l.w1, d, l.w0));
    forall p | 0 <= p < 16
      ensures Address(l', p) < |f| && r[p] == f[Address(l', p)]
    {
      var q := p / 4 * 2 + p % 2;
      if p / 2 % 2 == 0 {
        assert r[p] == a[q] && Address(l', p) == Address(l, q);
      } else {
        assert r[p] == b[q] && Address(l', p) == Address(l.(base := l.base + d), q);
      }
    }
  }

  lemma Unpacked16(a: seq<byte>, b: seq<byte>, f: seq<byte>, l: Layout, d: nat)
    requires Pair(a, b, f, l, d)
    ensures Holds(UnpackLo16(a, b), f, Layout(l.base, l.w2, l.w1, d, l.w0))
    ensures Holds(UnpackHi16(a, b), f, Layout(l.base + l.w3, l.w2, l.w1, d, l.w0))
  {
    hide Pair, HalfPair, Holds, UnpackLo16;
    PairHalves(a, b, f, l, d);
    Interleaved16(a, b, f, l, d);
    Interleaved16(SwapHalves(a), SwapHalves(b), f, l.(base := l.base + l.w3), d);
  }

  lemma Interleaved32(a: seq<byte>, b: seq<byte>, f: seq<byte>, l: Layout, d: nat)
    requires HalfPair(a, b, f, l, d)
    ensures Holds(UnpackLo32(a, b), f, Layout(l.base, l.w2, d, l.w1, l.w0))
  {
    var (r, l') := (UnpackLo32(a, b), Layout(l.base, l.w2, d, l.w1, l.w0));
    forall p | 0 <= p < 16
      ensures Address(l', p) < |f| && r[p] == f[Address(l', p)]
    {
      var q := p / 8 * 4 + p % 4;
      if p / 4 % 2 == 0 {
        assert r[p] == a[q] && Address(l', p) == Address(l, q);
      } else {
        assert r[p] == b[q] && Address(l', p) == Address(l.(base := l.base + d), q);
      }
    }
  }

  lemma Unpacked32(a: seq<byte>, b: seq<byte>, f: seq<byte>, l: Layout, d: nat)
    requires Pair(a, b, f, l, d)
    ensures Holds(UnpackLo32(a, b), f, Layout(l.base, l.w2, d, l.w1, l.w0))
    ensures Holds(UnpackHi32(a, b), f, Layout(l.base + l.w3, l.w2, d, l.w1, l.w0))
  {
    hide Pair, HalfPair, Holds, UnpackLo32;
    PairHalves(a, b, f, l, d);
    Interleaved32(a, b, f, l, d);
    Interleaved32(SwapHalves(a), SwapHalves(b), f, l.(base := l.base + l.w3), d);
  }

  lemma Interleaved64(a: seq<byte>, b: seq<byte>, f: seq<byte>, l: Layout, d: nat)
    requires HalfPair(a, b, f, l, d)
    ensures Holds(UnpackLo64(a, b), f, Layout(l.base, d, l.w2, l.w1, l.w0))
  {
    var (r, l') := (UnpackLo64(a, b), Layout(l.base, d, l.w2, l.w1, l.w0));
    forall p | 0 <= p < 16
      ensures Address(l', p) < |f| && r[p] == f[Address(l', p)]
    {
      var q := p % 8;
      if p < 8 {
        assert r[p] == a[q] && Address(l', p) == Address(l, q);
      } else {
        assert r[p] == b[q] && Address(l', p) == Address(l.(base := l.base + d), q);
      }
    }
  }

  lemma Unpacked64(a: seq<byte>, b: seq<byte>, f: seq<byte>, l: Layout, d: nat)
    requires Pair(a, b, f, l, d)
    ensures Holds(UnpackLo64(a, b), f, Layout(l.base, d, l.w2, l.w1, l.w0))
    ensures Holds(UnpackHi64(a, b), f, Layout(l.base + l.w3, d, l.w2, l.w1, l.w0))
  {
    hide Pair, HalfPair, Holds, UnpackLo64;
    PairHalves(a, b, f, l, d);
    Interleaved64(a, b, f, l, d);
    Interleaved64(SwapHalves(a), SwapHalves(b), f, l.(base := l.base + l.w3), d);
  }

  // ---------- bit instructions ----------

  /** A byte shifted up by one, with the top bit of the byte below it coming in. */
  function Doubled(v: bv8, below: bv8): bv8 {
    (v + v) | (if below & 0x80 != 0 then 1 else 0)
  }

  /** slli_epi16 by 1: every pair of bytes, as a 16 bit number, is doubled. */
  function ShiftLanes(r: seq<byte>): (t: seq<byte>)
    ensures |t| == |r|
  {
    seq(|r|, p requires 0 <= p < |r| =>
      if p % 2 == 0 then FromBits(Doubled(ToBits(r[p]), 0))
      else FromBits(Doubled(ToBits(r[p]), ToBits(r[p - 1]))))
  }

  /** One byte of movemask_epi8: the top bits of eight bytes. */
  function MaskByte(s: seq<byte>): byte
    requires |s| == 8
  {
    FromBits(Join(Bit(s[0], 7), Bit(s[1], 7), Bit(s[2], 7), Bit(s[3], 7), Bit(s[4], 7), Bit(s[5], 7), Bit(s[6], 7), Bit(s[7], 7)))
  }

  /** movemask_epi8, as the bytes a store of its value writes. */
  function MoveMask(r: seq<byte>): (t: seq<byte>)
    requires |r| % 8 == 0
    ensures |t| == |r| / 8
  {
    seq(|r| / 8, g requires 0 <= g < |r| / 8 => MaskByte(Word(r, g)))
  }

  lemma JoinedBits(b0: bool, b1: bool, b2: bool, b3: bool, b4: bool, b5: bool, b6: bool, b7: bool)
    ensures var v := Join(b0, b1, b2, b3, b4, b5, b6, b7);
            && BitV(v, 0) == b0 && BitV(v, 1) == b1 && BitV(v, 2) == b2 && BitV(v, 3) == b3
            && BitV(v, 4) == b4 && BitV(v, 5) == b5 && BitV(v, 6) == b6 && BitV(v, 7) == b7
  {}

  lemma MaskByteBit(s: seq<byte>, b: nat)
    requires |s| == 8 && b < 8
    ensures Bit(MaskByte(s), b) == Bit(s[b], 7)
  {
    hide Join, ToBits, FromBits, BitV;
    JoinedBits(Bit(s[0], 7), Bit(s[1], 7), Bit(s[2], 7), Bit(s[3], 7), Bit(s[4], 7), Bit(s[5], 7), Bit(s[6], 7), Bit(s[7], 7));
    BitsToByte(Join(Bit(s[0], 7), Bit(s[1], 7), Bit(s[2], 7), Bit(s[3], 7), Bit(s[4], 7), Bit(s[5], 7), Bit(s[6], 7), Bit(s[7], 7)));
    match b
    case 0 =>
    case 1 =>
    case 2 =>
    case 3 =>
    case 4 =>
    case 5 =>
    case 6 =>
    case _ =>
  }

  /** After `k` shifts the bits from `k` on of every byte are its original bits from 0 on. */
  ghost predicate ShiftedBy(r: seq<byte>, was: seq<byte>, k: nat) {
    |r| == |was| && forall p, b :: 0 <= p < |r| && k <= b < 8 ==> Bit(r[p], b) == Bit(was[p], b - k)
  }

  lemma NotShifted(r: seq<byte>)
    ensures ShiftedBy(r, r, 0)
  {}

  lemma DoubledBit(v: bv8, low: bv8, k: bv64)
    requires k < 7
    ensures BitV(Doubled(v, low), k + 1) == BitV(v, k)
  {}

  lemma ShiftedBit(r: seq<byte>, p: nat, b: nat)
    requires p < |r| && 0 < b < 8
    ensures Bit(ShiftLanes(r)[p], b) == Bit(r[p], b - 1)
  {
    hide ToBits, FromBits, BitV, Shift, Doubled;
    ShiftNext(b);
    if p % 2 == 0 {
      DoubledBit(ToBits(r[p]), 0, Shift(b - 1));
      BitsToByte(Doubled(ToBits(r[p]), 0));
    } else {
      DoubledBit(ToBits(r[p]), ToBits(r[p - 1]), Shift(b - 1));
      BitsToByte(Doubled(ToBits(r[p]), ToBits(r[p - 1])));
    }
  }

  lemma ShiftOnce(r: seq<byte>, was: seq<byte>, k: nat)
    requires ShiftedBy(r, was, k)
    ensures ShiftedBy(ShiftLanes(r), was, k + 1)
  {
    hide Bit, ShiftLanes;
    forall p, b | 0 <= p < |r| && k + 1 <= b < 8
      ensures Bit(ShiftLanes(r)[p], b) == Bit(was[p], b - (k + 1))
    {
      ShiftedBit(r, p, b);
    }
  }

  /** The mask after `k` shifts collects the bits 7 - k. */
  lemma MaskIsColumn(r: seq<byte>, was: seq<byte>, k: nat, g: nat)
    requires ShiftedBy(r, was, k) && k < 8 && |r| % 8 == 0 && 8 * g + 8 <= |r|
    ensures g < |MoveMask(r)| && MoveMask(r)[g] == Column(Word(was, g), 7 - k)
  {
    hide Bit, Column, MaskByte;
    var v := MaskByte(Word(r, g));
    forall b: nat | b < 8
      ensures Bit(v, b) == Bit(Word(was, g)[b], 7 - k)
    {
      MaskByteBit(Word(r, g), b);
      assert Word(r, g)[b] == r[8 * g + b] && Word(was, g)[b] == was[8 * g + b];
      assert Bit(r[8 * g + b], 7) == Bit(was[8 * g + b], 7 - k);
    }
    IsColumn(v, Word(was, g), 7 - k);
  }
}
