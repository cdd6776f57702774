/**
 The AVX2 kernels.  A register of 32 bytes is two lanes of 16, and the unpack instructions act on
 each lane as the SSE2 instructions do.
 */
module BitshuffleAvx {
  import opened Bytes
  import opened Matrix
  import opened BitTranspose
  import opened Simd
  import opened BitshuffleScalar
  import opened BitshuffleSse

  method TransBitByteAvx(input: seq<byte>, out: array<byte>, size: nat, elem: nat) returns (r: int)
    requires |input| == out.Length == elem * size && elem * size % 8 == 0
    modifies out
    ensures r == size * elem && out[..] == BitRows(input, elem * size / 8)
  {
    hide BitRows;
    r := TransBitByteMasks(input, out, size, elem, elem * size, 32);
  }

  method TransBitElemAvx(input: seq<byte>, out: array<byte>, size: nat, elem: nat) returns (r: int)
    requires |input| == out.Length == size * elem
    modifies out
    ensures size % 8 != 0 ==> r == -80 && out[..] == old(out[..])
    ensures size % 8 == 0 ==>
      r == size * elem && IsBlock(input, size / 8, elem) && out[..] == Shuffled(input, size / 8, elem)
  {
    hide Transpose, TransposeGroups, BitRows;
    if size % 8 != 0 { return -80; }
    BlockBytes(size, elem);
    var tmp := new byte[size * elem];
    r := TransByteElemSse(input, out, size, elem);
    r := TransBitByteAvx(out[..], tmp, size, elem);
    r := TransBitrowEight(tmp[..], out, size, elem);
  }

  // ---------- the way back: bytes of the rows together ----------

  lemma ColumnPair(a: seq<byte>, b: seq<byte>, input: seq<byte>, w: nat, row: nat, place: nat)
    requires Holds(a, input, ColumnsLayout(row * w + place, w)) && Holds(b, input, ColumnsLayout((row + 8) * w + place, w))
    ensures |a| == |b| == 16
    ensures Holds(UnpackLo64(a, b), input, RowLayout(w, row, place))
    ensures Holds(UnpackHi64(a, b), input, RowLayout(w, row, place + 1))
  {
    hide Holds, UnpackLo64, UnpackHi64;
    HoldsLength(a, input, ColumnsLayout(row * w + place, w));
    HoldsLength(b, input, ColumnsLayout((row + 8) * w + place, w));
    assert (row + 8) * w + place == row * w + place + 8 * w;
    Unpacked64(a, b, input, ColumnsLayout(row * w + place, w), 8 * w);
  }

  /** Two places of 32 rows, from the columns of four groups of eight rows. */
  method StoreLane(input: seq<byte>, out: array<byte>, elem: nat, w: nat, row: nat, place: nat,
                   a: seq<byte>, b: seq<byte>, c: seq<byte>, d: seq<byte>)
    requires |input| == out.Length == 8 * elem * w && row + 32 <= 8 * elem && place + 1 < w
    requires Holds(a, input, ColumnsLayout(row * w + place, w)) && Holds(b, input, ColumnsLayout((row + 8) * w + place, w))
    requires Holds(c, input, ColumnsLayout((row + 16) * w + place, w)) && Holds(d, input, ColumnsLayout((row + 24) * w + place, w))
    modifies out
    ensures forall p: nat :: old(Right(out, Transpose(input, 8 * elem, w), p)) ==> Right(out, Transpose(input, 8 * elem, w), p)
    ensures forall j: nat, i: nat :: place <= j < place + 2 && row <= i < row + 32 ==> Right(out, Transpose(input, 8 * elem, w), At(j, 8 * elem, i))
  {
    hide *;
    ColumnPair(a, b, input, w, row, place);
    ColumnPair(c, d, input, w, row + 16, place);
    StoreRow(input, out, 8 * elem, w, row, place, UnpackLo64(a, b));
    StoreRow(input, out, 8 * elem, w, row + 16, place, UnpackLo64(c, d));
    StoreRow(input, out, 8 * elem, w, row, place + 1, UnpackHi64(a, b));
    StoreRow(input, out, 8 * elem, w, row + 16, place + 1, UnpackHi64(c, d));
  }

  /** One lane: 32 rows, 16 places. */
  method LaneBlock(input: seq<byte>, out: array<byte>, elem: nat, w: nat, ii: nat, jj: nat)
    requires |input| == out.Length == 8 * elem * w && ii + 4 <= elem && jj + 16 <= w
    modifies out
    ensures forall p: nat :: old(Right(out, Transpose(input, 8 * elem, w), p)) ==> Right(out, Transpose(input, 8 * elem, w), p)
    ensures forall j: nat, i: nat :: jj <= j < jj + 16 && 8 * ii <= i < 8 * ii + 32 ==> Right(out, Transpose(input, 8 * elem, w), At(j, 8 * elem, i))
  {
    hide *;
    ghost var spec := Transpose(input, 8 * elem, w);
    var a := EightRowColumns(input, elem, w, ii * 8, jj);
    var b := EightRowColumns(input, elem, w, ii * 8 + 8, jj);
    var c := EightRowColumns(input, elem, w, ii * 8 + 16, jj);
    var d := EightRowColumns(input, elem, w, ii * 8 + 24, jj);
    for mm := 0 to 8
      invariant forall p: nat :: old(Right(out, spec, p)) ==> Right(out, spec, p)
      invariant forall j: nat, i: nat :: jj <= j < jj + 2 * mm && 8 * ii <= i < 8 * ii + 32 ==> Right(out, spec, At(j, 8 * elem, i))
    {
      StoreLane(input, out, elem, w, ii * 8, jj + 2 * mm, a[mm], b[mm], c[mm], d[mm]);
    }
  }

  method BitrowBlockAvx(input: seq<byte>, out: array<byte>, elem: nat, w: nat, ii: nat, jj: nat)
    requires |input| == out.Length == 8 * elem * w && ii + 4 <= elem && jj + 32 <= w
    modifies out
    ensures forall p: nat :: old(Right(out, Transpose(input, 8 * elem, w), p)) ==> Right(out, Transpose(input, 8 * elem, w), p)
    ensures forall j: nat, i: nat :: jj <= j < jj + 32 && 8 * ii <= i < 8 * ii + 32 ==> Right(out, Transpose(input, 8 * elem, w), At(j, 8 * elem, i))
  {
    hide *;
    LaneBlock(input, out, elem, w, ii, jj);
    LaneBlock(input, out, elem, w, ii, jj + 16);
  }

  /** 32 places, all rows. */
  method PlaceStripe(input: seq<byte>, out: array<byte>, elem: nat, w: nat, jj: nat)
    requires |input| == out.Length == 8 * elem * w && elem % 4 == 0 && jj + 32 <= w
    modifies out
    ensures forall p: nat :: old(Right(out, Transpose(input, 8 * elem, w), p)) ==> Right(out, Transpose(input, 8 * elem, w), p)
    ensures forall j: nat, i: nat :: jj <= j < jj + 32 && i < 8 * elem ==> Right(out, Transpose(input, 8 * elem, w), At(j, 8 * elem, i))
  {
    hide Transpose, Right, At;
    ghost var spec := Transpose(input, 8 * elem, w);
    var ii: nat := 0;
    while ii + 3 < elem
      invariant ii % 4 == 0 && ii <= elem
      invariant forall p: nat :: old(Right(out, spec, p)) ==> Right(out, spec, p)
      invariant forall j: nat, i: nat :: jj <= j < jj + 32 && i < 8 * ii ==> Right(out, spec, At(j, 8 * elem, i))
    {
      BitrowBlockAvx(input, out, elem, w, ii, jj);
      ii := ii + 4;
    }
  }

  /** The last places of every row, byte by byte. */
  method RowRemainders(input: seq<byte>, out: array<byte>, elem: nat, w: nat, start: nat)
    requires |input| == out.Length == 8 * elem * w && start <= w
    modifies out
    ensures forall p: nat :: old(Right(out, Transpose(input, 8 * elem, w), p)) ==> Right(out, Transpose(input, 8 * elem, w), p)
    ensures forall j: nat, i: nat :: start <= j < w && i < 8 * elem ==> Right(out, Transpose(input, 8 * elem, w), At(j, 8 * elem, i))
  {
    hide Transpose, Right;
    ghost var spec := Transpose(input, 8 * elem, w);
    for ii := 0 to 8 * elem
      invariant forall p: nat :: old(Right(out, spec, p)) ==> Right(out, spec, p)
      invariant forall j: nat, i: nat :: start <= j < w && i < ii ==> Right(out, spec, At(j, 8 * elem, i))
    {
      for jj := start to w
        invariant forall p: nat :: old(Right(out, spec, p)) ==> Right(out, spec, p)
        invariant forall j: nat, i: nat :: start <= j < w && i < ii ==> Right(out, spec, At(j, 8 * elem, i))
        invariant forall j: nat :: start <= j < jj ==> Right(out, spec, At(j, 8 * elem, ii))
      {
        TransposeAt(input, 8 * elem, w, ii, jj);
        Put(out, spec, jj * (8 * elem) + ii, input[ii * w + jj]);
      }
    }
  }

  method TransByteBitrowAvx(input: seq<byte>, out: array<byte>, size: nat, elem: nat) returns (r: int)
    requires |input| == out.Length == size * elem
    modifies out
    ensures size % 8 != 0 ==> r == -80 && out[..] == old(out[..])
    ensures size % 8 == 0 ==>
      r == size * elem && |input| == 8 * elem * (size / 8) && out[..] == Transpose(input, 8 * elem, size / 8)
  {
    hide Transpose;
    if size % 8 != 0 { return -80; }
    if elem % 4 != 0 {
      r := TransByteBitrowSse(input, out, size, elem);
      return;
    }
    BlockBytes(size, elem);
    BitrowStripes(input, out, elem, size / 8);
    return size * elem;
  }

  method BitrowStripes(input: seq<byte>, out: array<byte>, elem: nat, w: nat)
    requires |input| == out.Length == 8 * elem * w && elem % 4 == 0
    modifies out
    ensures out[..] == Transpose(input, 8 * elem, w)
  {
    hide Transpose, Right, At, Steps, WholePart;
    ghost var spec := Transpose(input, 8 * elem, w);
    var jj: nat := 0;
    FirstStep(w, 32);
    while jj + 31 < w
      invariant Steps(w, jj, 32)
      invariant forall j: nat, i: nat :: j < jj && i < 8 * elem ==> Right(out, spec, At(j, 8 * elem, i))
    {
      NextStep(w, jj, 32);
      PlaceStripe(input, out, elem, w, jj);
      jj := jj + 32;
    }
    NextStep(w, jj, 32);
    RowRemainders(input, out, elem, w, WholePart(w, 32));
    RightMatrix(out, spec, w, 8 * elem);
  }

  // ---------- the way back: bits of each group of eight elements ----------

  /** One register of every group of eight elements. */
  method ShuffleStripe(input: seq<byte>, out: array<byte>, elem: nat, ghost w: nat, nbyte: nat, jj: nat)
    requires |input| == out.Length == nbyte == 8 * elem * w && jj % 16 == 0 && jj + 32 <= 8 * elem
    modifies out
    ensures forall p: nat :: old(Right(out, ShuffleEight(input, elem, w), p)) ==> Right(out, ShuffleEight(input, elem, w), p)
    ensures forall c: nat, k: nat, l: nat :: c < w && k < 8 && jj / 8 <= l < (jj + 32) / 8 ==> Right(out, ShuffleEight(input, elem, w), At(At(c, 8, k), elem, l))
  {
    hide ShuffleEight, Right, At;
    ghost var spec := ShuffleEight(input, elem, w);
    var ii: nat := 0;
    ghost var c: nat := 0;
    while ii + 8 * elem - 1 < nbyte
      invariant c <= w && ii == c * (8 * elem)
      invariant forall p: nat :: old(Right(out, spec, p)) ==> Right(out, spec, p)
      invariant forall d: nat, k: nat, l: nat :: d < c && k < 8 && jj / 8 <= l < (jj + 32) / 8 ==> Right(out, spec, At(At(d, 8, k), elem, l))
      decreases nbyte - ii
    {
      GroupsLeft(elem, w, c);
      EightMasks(input, out, elem, w, c, ii, jj, 32);
      ii, c := ii + 8 * elem, c + 1;
    }
    GroupsLeft(elem, w, c);
  }

  method ShuffleBitEightelemAvx(input: seq<byte>, out: array<byte>, size: nat, elem: nat) returns (r: int)
    requires |input| == out.Length == size * elem
    modifies out
    ensures size % 8 != 0 ==> r == -80 && out[..] == old(out[..])
    ensures size % 8 == 0 ==>
      r == size * elem && |input| == 8 * elem * (size / 8) && out[..] == ShuffleEight(input, elem, size / 8)
  {
    hide ShuffleEight, Right, At;
    if size % 8 != 0 { return -80; }
    if elem % 4 != 0 {
      r := ShuffleBitEightelemSse(input, out, size, elem);
      return;
    }
    var nbyte := elem * size;
    BlockBytes(size, elem);
    ShuffleStripes(input, out, elem, size / 8, nbyte);
    return size * elem;
  }

  method ShuffleStripes(input: seq<byte>, out: array<byte>, elem: nat, ghost w: nat, nbyte: nat)
    requires |input| == out.Length == nbyte == 8 * elem * w && elem % 4 == 0
    modifies out
    ensures out[..] == ShuffleEight(input, elem, w)
  {
    hide ShuffleEight, Right, At;
    ghost var spec := ShuffleEight(input, elem, w);
    var jj: nat := 0;
    while jj + 31 < 8 * elem
      invariant jj % 32 == 0 && jj <= 8 * elem
      invariant forall c: nat, k: nat, l: nat :: c < w && k < 8 && l < jj / 8 ==> Right(out, spec, At(At(c, 8, k), elem, l))
    {
      ShuffleStripe(input, out, elem, w, nbyte, jj);
      jj := jj + 32;
    }
    RightElements(out, spec, elem, w);
  }

  method UntransBitElemAvx(input: seq<byte>, out: array<byte>, size: nat, elem: nat) returns (r: int)
    requires |input| == out.Length == size * elem
    modifies out
    ensures size % 8 != 0 ==> r == -80 && out[..] == old(out[..])
    ensures size % 8 == 0 ==>
      r == size * elem && IsBlock(input, size / 8, elem) && out[..] == Unshuffled(input, size / 8, elem)
  {
    hide Transpose, ShuffleEight;
    if size % 8 != 0 { return -80; }
    BlockBytes(size, elem);
    var tmp := new byte[size * elem];
    r := TransByteBitrowAvx(input, tmp, size, elem);
    r := ShuffleBitEightelemAvx(tmp[..], out, size, elem);
  }
}
