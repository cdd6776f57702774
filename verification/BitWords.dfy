/** Bits of bytes, bytes of 64 bit words, and the 8 by 8 bit transposition of one word. */
module BitWords {
  import opened Bytes

  // ---------- a byte as its eight binary digits ----------

  function Mask(c: bool, v: bv8): bv8 {
    if c then v else 0
  }

  function Join(b0: bool, b1: bool, b2: bool, b3: bool, b4: bool, b5: bool, b6: bool, b7: bool): bv8 {
    Mask(b0, 1) | Mask(b1, 2) | Mask(b2, 4) | Mask(b3, 8) | Mask(b4, 16) | Mask(b5, 32) | Mask(b6, 64) | Mask(b7, 128)
  }

  function Bin(b: bool, n: nat): (r: nat)
    ensures (r % 2 == 1) == b && r / 2 == n
  {
    (if b then 1 else 0) + 2 * n
  }

  function Sum(b0: bool, b1: bool, b2: bool, b3: bool, b4: bool, b5: bool, b6: bool, b7: bool): (n: nat)
    ensures n < 256
  {
    Bin(b0, Bin(b1, Bin(b2, Bin(b3, Bin(b4, Bin(b5, Bin(b6, Bin(b7, 0))))))))
  }

  function ToBits(b: byte): bv8 {
    var (n0, n1) := (b as nat, b as nat / 2);
    var (n2, n3) := (n1 / 2, n1 / 2 / 2);
    var (n4, n5) := (n3 / 2, n3 / 2 / 2);
    var (n6, n7) := (n5 / 2, n5 / 2 / 2);
    Join(n0 % 2 == 1, n1 % 2 == 1, n2 % 2 == 1, n3 % 2 == 1, n4 % 2 == 1, n5 % 2 == 1, n6 % 2 == 1, n7 % 2 == 1)
  }

  function FromBits(v: bv8): byte {
    Sum(v & 1 != 0, v & 2 != 0, v & 4 != 0, v & 8 != 0, v & 16 != 0, v & 32 != 0, v & 64 != 0, v & 128 != 0) as byte
  }

  lemma Whole(n: nat)
    ensures Bin(n % 2 == 1, n / 2) == n
  {}

  lemma JoinBits(b0: bool, b1: bool, b2: bool, b3: bool, b4: bool, b5: bool, b6: bool, b7: bool)
    ensures var v := Join(b0, b1, b2, b3, b4, b5, b6, b7);
            && (v & 1 != 0) == b0 && (v & 2 != 0) == b1 && (v & 4 != 0) == b2 && (v & 8 != 0) == b3
            && (v & 16 != 0) == b4 && (v & 32 != 0) == b5 && (v & 64 != 0) == b6 && (v & 128 != 0) == b7
  {}

  lemma BitsJoin(v: bv8)
    ensures Join(v & 1 != 0, v & 2 != 0, v & 4 != 0, v & 8 != 0, v & 16 != 0, v & 32 != 0, v & 64 != 0, v & 128 != 0) == v
  {}

  lemma Binary(n0: nat, n1: nat, n2: nat, n3: nat, n4: nat, n5: nat, n6: nat, n7: nat)
    requires n0 < 256 && n1 == n0 / 2 && n2 == n1 / 2 && n3 == n2 / 2
    requires n4 == n3 / 2 && n5 == n4 / 2 && n6 == n5 / 2 && n7 == n6 / 2
    ensures Sum(n0 % 2 == 1, n1 % 2 == 1, n2 % 2 == 1, n3 % 2 == 1, n4 % 2 == 1, n5 % 2 == 1, n6 % 2 == 1, n7 % 2 == 1) == n0
  {
    hide Bin;
    assert n1 < 128;
    assert n2 < 64;
    assert n3 < 32;
    assert n4 < 16;
    assert n5 < 8;
    assert n6 < 4;
    assert n7 < 2;
    assert n7 / 2 == 0;
    Whole(n7);
    Whole(n6);
    Whole(n5);
    Whole(n4);
    Whole(n3);
    Whole(n2);
    Whole(n1);
    Whole(n0);
  }

  lemma ByteToBits(b: byte)
    ensures FromBits(ToBits(b)) == b
  {
    hide Join, Bin, Sum;
    var (n0, n1) := (b as nat, b as nat / 2);
    var (n2, n3) := (n1 / 2, n1 / 2 / 2);
    var (n4, n5) := (n3 / 2, n3 / 2 / 2);
    var (n6, n7) := (n5 / 2, n5 / 2 / 2);
    JoinBits(n0 % 2 == 1, n1 % 2 == 1, n2 % 2 == 1, n3 % 2 == 1, n4 % 2 == 1, n5 % 2 == 1, n6 % 2 == 1, n7 % 2 == 1);
    Binary(n0, n1, n2, n3, n4, n5, n6, n7);
  }

  lemma BitsToByte(v: bv8)
    ensures ToBits(FromBits(v)) == v
  {
    hide Join, Bin;
    BitsJoin(v);
  }

  // ---------- bits ----------

  /** A bit number as a shift amount. */
  function Shift(k: nat): (r: bv64)
    requires k < 8
    ensures r < 8
  {
    match k
    case 0 => 0
    case 1 => 1
    case 2 => 2
    case 3 => 3
    case 4 => 4
    case 5 => 5
    case 6 => 6
    case _ => 7
  }

  predicate BitV(v: bv8, k: bv64)
    requires k < 8
  {
    (v >> k) & 1 == 1
  }

  /** Bit `k` of a byte, bit 0 being the lowest. */
  predicate Bit(b: byte, k: nat)
    requires k < 8
  {
    BitV(ToBits(b), Shift(k))
  }

  /** What a bit counts. */
  function Weight(k: nat): (w: nat)
    requires k < 8
    ensures w > 0
  {
    [1, 2, 4, 8, 16, 32, 64, 128][k]
  }

  /** A bit of a byte is a binary digit of it. */
  lemma BitIsDigit(b: byte, k: nat)
    requires k < 8
    ensures Bit(b, k) <==> b as nat / Weight(k) % 2 == 1
  {
    hide Join, ToBits, BitV, Weight;
    var (n0, n1) := (b as nat, b as nat / 2);
    var (n2, n3) := (n1 / 2, n1 / 2 / 2);
    var (n4, n5) := (n3 / 2, n3 / 2 / 2);
    var (n6, n7) := (n5 / 2, n5 / 2 / 2);
    DigitsOf(b);
    JoinBits(n0 % 2 == 1, n1 % 2 == 1, n2 % 2 == 1, n3 % 2 == 1, n4 % 2 == 1, n5 % 2 == 1, n6 % 2 == 1, n7 % 2 == 1);
    BitsOf(ToBits(b));
    Divided(b as nat);
  }

  lemma DigitsOf(b: byte)
    ensures var (n0, n1) := (b as nat, b as nat / 2);
            var (n2, n3) := (n1 / 2, n1 / 2 / 2);
            var (n4, n5) := (n3 / 2, n3 / 2 / 2);
            var (n6, n7) := (n5 / 2, n5 / 2 / 2);
            ToBits(b) == Join(n0 % 2 == 1, n1 % 2 == 1, n2 % 2 == 1, n3 % 2 == 1, n4 % 2 == 1, n5 % 2 == 1, n6 % 2 == 1, n7 % 2 == 1)
  {
    hide Join;
  }

  lemma BitsOf(v: bv8)
    ensures (BitV(v, 0) <==> v & 1 != 0) && (BitV(v, 1) <==> v & 2 != 0) && (BitV(v, 2) <==> v & 4 != 0) && (BitV(v, 3) <==> v & 8 != 0)
    ensures (BitV(v, 4) <==> v & 16 != 0) && (BitV(v, 5) <==> v & 32 != 0) && (BitV(v, 6) <==> v & 64 != 0) && (BitV(v, 7) <==> v & 128 != 0)
  {}

  lemma Divided(n: nat)
    ensures n / Weight(0) == n && n / Weight(1) == n / 2 && n / Weight(2) == n / 2 / 2 && n / Weight(3) == n / 2 / 2 / 2
    ensures n / Weight(4) == n / 2 / 2 / 2 / 2 && n / Weight(5) == n / 2 / 2 / 2 / 2 / 2
    ensures n / Weight(6) == n / 2 / 2 / 2 / 2 / 2 / 2 && n / Weight(7) == n / 2 / 2 / 2 / 2 / 2 / 2 / 2
  {}

  function ByteV(x: bv64, k: bv64): bv8
    requires k < 8
  {
    ((x >> (k << 3)) & 0xFF) as bv8
  }

  lemma BytesFromBits(a: bv8, c: bv8)
    requires forall k: nat :: k < 8 ==> BitV(a, Shift(k)) == BitV(c, Shift(k))
    ensures a == c
  {
    assert BitV(a, Shift(0)) == BitV(c, Shift(0)) && BitV(a, Shift(1)) == BitV(c, Shift(1));
    assert BitV(a, Shift(2)) == BitV(c, Shift(2)) && BitV(a, Shift(3)) == BitV(c, Shift(3));
    assert BitV(a, Shift(4)) == BitV(c, Shift(4)) && BitV(a, Shift(5)) == BitV(c, Shift(5));
    assert BitV(a, Shift(6)) == BitV(c, Shift(6)) && BitV(a, Shift(7)) == BitV(c, Shift(7));
  }

  /** A byte is determined by its bits. */
  lemma BitsDetermine(a: byte, b: byte)
    requires forall k: nat :: k < 8 ==> Bit(a, k) == Bit(b, k)
    ensures a == b
  {
    hide ToBits, FromBits, BitV, Shift;
    forall k: nat | k < 8
      ensures BitV(ToBits(a), Shift(k)) == BitV(ToBits(b), Shift(k))
    {
      assert Bit(a, k) == Bit(b, k);
    }
    BytesFromBits(ToBits(a), ToBits(b));
    ByteToBits(a);
    ByteToBits(b);
  }

  // ---------- words ----------

  function JoinWord(a0: bv8, a1: bv8, a2: bv8, a3: bv8, a4: bv8, a5: bv8, a6: bv8, a7: bv8): bv64 {
    (a0 as bv64) | ((a1 as bv64) << 8) | ((a2 as bv64) << 16) | ((a3 as bv64) << 24)
    | ((a4 as bv64) << 32) | ((a5 as bv64) << 40) | ((a6 as bv64) << 48) | ((a7 as bv64) << 56)
  }

  /** Eight bytes loaded as a little-endian word. */
  function LoadWord(s: seq<byte>): bv64
    requires |s| == 8
  {
    JoinWord(ToBits(s[0]), ToBits(s[1]), ToBits(s[2]), ToBits(s[3]), ToBits(s[4]), ToBits(s[5]), ToBits(s[6]), ToBits(s[7]))
  }

  lemma JoinedBytes(a0: bv8, a1: bv8, a2: bv8, a3: bv8, a4: bv8, a5: bv8, a6: bv8, a7: bv8)
    ensures var x := JoinWord(a0, a1, a2, a3, a4, a5, a6, a7);
            && ByteV(x, 0) == a0 && ByteV(x, 1) == a1 && ByteV(x, 2) == a2 && ByteV(x, 3) == a3
            && ByteV(x, 4) == a4 && ByteV(x, 5) == a5 && ByteV(x, 6) == a6 && ByteV(x, 7) == a7
  {}

  lemma LoadedByte(s: seq<byte>, k: nat)
    requires |s| == 8 && k < 8
    ensures ByteV(LoadWord(s), Shift(k)) == ToBits(s[k])
  {
    hide ByteV, JoinWord, ToBits;
    JoinedBytes(ToBits(s[0]), ToBits(s[1]), ToBits(s[2]), ToBits(s[3]), ToBits(s[4]), ToBits(s[5]), ToBits(s[6]), ToBits(s[7]));
    match k
    case 0 =>
    case 1 =>
    case 2 =>
    case 3 =>
    case 4 =>
    case 5 =>
    case 6 =>
    case _ =>
  }

  /** The value a byte store takes from a word. */
  function LowByte(x: bv64): byte {
    FromBits((x & 0xFF) as bv8)
  }

  /** A word shifted right by `k` bytes, one at a time. */
  function ShiftBytes(x: bv64, k: nat): bv64
    requires k <= 8
  {
    if k == 0 then x else ShiftBytes(x, k - 1) >> 8
  }

  lemma ShiftStep(x: bv64, k: bv64)
    requires k < 7
    ensures (x >> (k << 3)) >> 8 == x >> ((k + 1) << 3)
  {}

  lemma ShiftNext(k: nat)
    requires 0 < k < 8
    ensures Shift(k - 1) < 7 && Shift(k) == Shift(k - 1) + 1
  {}

  lemma {:induction false} ShiftedWord(x: bv64, k: nat)
    requires k < 8
    ensures ShiftBytes(x, k) == x >> (Shift(k) << 3)
    decreases k
  {
    if k > 0 {
      hide Shift;
      ShiftedWord(x, k - 1);
      ShiftNext(k);
      ShiftStep(x, Shift(k - 1));
    }
  }

  lemma LowBits(x: bv64)
    ensures ToBits(LowByte(x)) == (x & 0xFF) as bv8
  {
    BitsToByte((x & 0xFF) as bv8);
  }

  lemma ShiftedByte(x: bv64, k: nat)
    requires k < 8
    ensures ToBits(LowByte(ShiftBytes(x, k))) == ByteV(x, Shift(k))
  {
    hide Shift, ShiftBytes, LowByte, ToBits;
    ShiftedWord(x, k);
    LowBits(ShiftBytes(x, k));
  }

  // ---------- the transposition ----------

  /** TRANS_BIT_8X8. */
  function TransBit8x8(x: bv64): bv64 {
    var t := (x ^ (x >> 7)) & 0x00AA_00AA_00AA_00AA;
    var x1 := x ^ t ^ (t << 7);
    var t1 := (x1 ^ (x1 >> 14)) & 0x0000_CCCC_0000_CCCC;
    var x2 := x1 ^ t1 ^ (t1 << 14);
    var t2 := (x2 ^ (x2 >> 28)) & 0x0000_0000_F0F0_F0F0;
    x2 ^ t2 ^ (t2 << 28)
  }

  lemma TransposesBits(x: bv64, k: bv64, b: bv64)
    requires k < 8 && b < 8
    ensures BitV(ByteV(TransBit8x8(x), k), b) == BitV(ByteV(x, b), k)
  {}

  lemma TransposesTwice(x: bv64)
    ensures TransBit8x8(TransBit8x8(x)) == x
  {}

  /** Byte `k` of the transposed word of 8 bytes: it collects their bits `k`. */
  function Column(s: seq<byte>, k: nat): byte
    requires |s| == 8 && k < 8
  {
    LowByte(ShiftBytes(TransBit8x8(LoadWord(s)), k))
  }

  lemma ColumnBit(s: seq<byte>, k: nat, b: nat)
    requires |s| == 8 && k < 8 && b < 8
    ensures Bit(Column(s, k), b) == Bit(s[b], k)
  {
    hide TransBit8x8, ByteV, BitV, LowByte, LoadWord, ShiftBytes, ToBits, Shift;
    var x := TransBit8x8(LoadWord(s));
    ShiftedByte(x, k);
    TransposesBits(LoadWord(s), Shift(k), Shift(b));
    LoadedByte(s, b);
  }

  /** A byte that has the bits `k` of 8 bytes is that column. */
  lemma IsColumn(v: byte, s: seq<byte>, k: nat)
    requires |s| == 8 && k < 8 && forall b: nat :: b < 8 ==> Bit(v, b) == Bit(s[b], k)
    ensures v == Column(s, k)
  {
    hide Bit, Column;
    forall b: nat | b < 8
      ensures Bit(v, b) == Bit(Column(s, k), b)
    {
      ColumnBit(s, k, b);
    }
    BitsDetermine(v, Column(s, k));
  }
}
