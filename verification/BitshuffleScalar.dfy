/** The scalar kernels: nested loops that fill an output buffer with a transposed input. */
module BitshuffleScalar {
  import opened Bytes
  import opened BitWords
  import opened Matrix
  import opened BitTranspose

  /** Place `p` of the output already has the byte it is to have. */
  ghost predicate Right(out: array<byte>, spec: seq<byte>, p: nat)
    reads out
  {
    p < out.Length == |spec| && out[p] == spec[p]
  }

  /** One store of the right byte; places that were right stay so. */
  method Put(out: array<byte>, ghost spec: seq<byte>, q: nat, v: byte)
    requires q < out.Length == |spec| && v == spec[q]
    modifies out
    ensures Right(out, spec, q)
    ensures forall p: nat :: old(Right(out, spec, p)) ==> Right(out, spec, p)
  {
    out[q] := v;
  }

  lemma RightEverywhere(out: array<byte>, spec: seq<byte>)
    requires out.Length == |spec| && forall p: nat :: p < |spec| ==> Right(out, spec, p)
    ensures out[..] == spec
  {
    forall p: nat | p < |spec|
      ensures out[..][p] == spec[p]
    {
      assert Right(out, spec, p);
    }
  }

  lemma RightMatrix(out: array<byte>, spec: seq<byte>, rows: nat, width: nat)
    requires out.Length == |spec| == rows * width
    requires forall i: nat, j: nat :: i < width && j < rows ==> Right(out, spec, At(j, width, i))
    ensures out[..] == spec
  {
    forall p: nat | p < |spec|
      ensures Right(out, spec, p)
    {
      var j, i := Decompose(p, rows, width);
    }
    RightEverywhere(out, spec);
  }

  // ---------- bytes within elements ----------

  /** Eight elements from `ii` on. */
  method TransByteEight(input: seq<byte>, out: array<byte>, size: nat, elem: nat, ii: nat)
    requires |input| == out.Length == size * elem && ii + 7 < size
    modifies out
    ensures forall p: nat :: old(Right(out, Transpose(input, size, elem), p)) ==> Right(out, Transpose(input, size, elem), p)
    ensures forall i: nat, j: nat :: ii <= i < ii + 8 && j < elem ==> Right(out, Transpose(input, size, elem), At(j, size, i))
  {
    hide Transpose, At, Right;
    ghost var spec := Transpose(input, size, elem);
    for jj := 0 to elem
      invariant forall p: nat :: old(Right(out, spec, p)) ==> Right(out, spec, p)
      invariant forall i: nat, j: nat :: ii <= i < ii + 8 && j < jj ==> Right(out, spec, At(j, size, i))
    {
      for kk := 0 to 8
        invariant forall p: nat :: old(Right(out, spec, p)) ==> Right(out, spec, p)
        invariant forall i: nat, j: nat :: ii <= i < ii + 8 && j < jj ==> Right(out, spec, At(j, size, i))
        invariant forall i: nat :: ii <= i < ii + kk ==> Right(out, spec, At(jj, size, i))
      {
        EightIndices(size, elem, ii, jj, kk);
        TransposeAt(input, size, elem, ii + kk, jj);
        Put(out, spec, jj * size + ii + kk, input[ii * elem + kk * elem + jj]);
      }
    }
  }

  lemma EightIndices(size: nat, elem: nat, ii: nat, jj: nat, kk: nat)
    ensures jj * size + ii + kk == At(jj, size, ii + kk) && ii * elem + kk * elem + jj == At(ii + kk, elem, jj)
  {
    assert (ii + kk) * elem == ii * elem + kk * elem;
  }

  /** One element. */
  method TransByteOne(input: seq<byte>, out: array<byte>, size: nat, elem: nat, ii: nat)
    requires |input| == out.Length == size * elem && ii < size
    modifies out
    ensures forall p: nat :: old(Right(out, Transpose(input, size, elem), p)) ==> Right(out, Transpose(input, size, elem), p)
    ensures forall j: nat :: j < elem ==> Right(out, Transpose(input, size, elem), At(j, size, ii))
  {
    hide Transpose, At, Right;
    ghost var spec := Transpose(input, size, elem);
    for jj := 0 to elem
      invariant forall p: nat :: old(Right(out, spec, p)) ==> Right(out, spec, p)
      invariant forall j: nat :: j < jj ==> Right(out, spec, At(j, size, ii))
    {
      EightIndices(size, elem, ii, jj, 0);
      TransposeAt(input, size, elem, ii, jj);
      Put(out, spec, jj * size + ii, input[ii * elem + jj]);
    }
  }

  /** Transposition of the elements from `start` on; a `start` that is no multiple of 8 is refused. */
  method TransByteElemRemainder(input: seq<byte>, out: array<byte>, size: nat, elem: nat, start: nat) returns (r: int)
    requires |input| == out.Length == size * elem
    modifies out
    ensures start % 8 != 0 ==> r == -80
    ensures start % 8 == 0 ==> r == size * elem
    ensures forall p: nat :: old(Right(out, Transpose(input, size, elem), p)) ==> Right(out, Transpose(input, size, elem), p)
    ensures start % 8 == 0 ==>
      forall i: nat, j: nat :: start <= i < size && j < elem ==> Right(out, Transpose(input, size, elem), At(j, size, i))
  {
    hide Transpose, At, Right;
    if start % 8 != 0 { return -80; }
    ghost var spec := Transpose(input, size, elem);
    if size > start {
      var ii := start;
      while ii + 7 < size
        invariant start <= ii && ii % 8 == 0 && ii <= size - size % 8
        invariant forall p: nat :: old(Right(out, spec, p)) ==> Right(out, spec, p)
        invariant forall i: nat, j: nat :: start <= i < ii && j < elem ==> Right(out, spec, At(j, size, i))
      {
        TransByteEight(input, out, size, elem, ii);
        ii := ii + 8;
      }
      ii := size - size % 8;
      while ii < size
        invariant size - size % 8 <= ii <= size
        invariant forall p: nat :: old(Right(out, spec, p)) ==> Right(out, spec, p)
        invariant forall i: nat, j: nat :: start <= i < ii && j < elem ==> Right(out, spec, At(j, size, i))
      {
        TransByteOne(input, out, size, elem, ii);
        ii := ii + 1;
      }
    }
    return size * elem;
  }

  method TransByteElemScal(input: seq<byte>, out: array<byte>, size: nat, elem: nat) returns (r: int)
    requires |input| == out.Length == size * elem
    modifies out
    ensures r == size * elem && out[..] == Transpose(input, size, elem)
  {
    hide Transpose, At, Right;
    r := TransByteElemRemainder(input, out, size, elem, 0);
    RightMatrix(out, Transpose(input, size, elem), elem, size);
  }

  // ---------- bits within bytes ----------

  lemma ShiftNone(x: bv64)
    ensures ShiftBytes(x, 0) == x
  {}

  lemma ShiftMore(x: bv64, k: nat)
    requires k < 8
    ensures ShiftBytes(x, k + 1) == ShiftBytes(x, k) >> 8
  {}

  lemma ColumnIs(s: seq<byte>, k: nat)
    requires |s| == 8 && k < 8
    ensures Column(s, k) == LowByte(ShiftBytes(TransBit8x8(LoadWord(s)), k))
  {}

  /** The eight bytes of one transposed word, one to each row. */
  method SpreadWord(input: seq<byte>, out: array<byte>, m: nat, ii: nat)
    requires |input| == out.Length == 8 * m && ii < m
    modifies out
    ensures forall p: nat :: old(Right(out, BitRows(input, m), p)) ==> Right(out, BitRows(input, m), p)
    ensures forall k: nat :: k < 8 ==> Right(out, BitRows(input, m), At(k, m, ii))
  {
    hide BitRows, Right, TransBit8x8, LoadWord, LowByte, Column, ShiftBytes, At, Word;
    ghost var spec := BitRows(input, m);
    var x := TransBit8x8(LoadWord(Word(input, ii)));
    ghost var word := x;
    ShiftNone(word);
    for kk := 0 to 8
      invariant x == ShiftBytes(word, kk)
      invariant forall p: nat :: old(Right(out, spec, p)) ==> Right(out, spec, p)
      invariant forall k: nat :: k < kk ==> Right(out, spec, At(k, m, ii))
    {
      BitRowsAt(input, m, kk, ii);
      ColumnIs(Word(input, ii), kk);
      EightIndices(m, 0, ii, kk, 0);
      Put(out, spec, kk * m + ii, LowByte(x));
      ShiftMore(word, kk);
      x := x >> 8;
    }
  }

  method TransBitByteRemainder(input: seq<byte>, out: array<byte>, size: nat, elem: nat, startByte: nat) returns (r: int)
    requires |input| == out.Length == elem * size
    modifies out
    ensures elem * size % 8 != 0 || startByte % 8 != 0 ==> r == -80 && out[..] == old(out[..])
    ensures elem * size % 8 == 0 && startByte % 8 == 0 ==>
      var m := elem * size / 8;
      && r == size * elem
      && (forall p: nat :: old(Right(out, BitRows(input, m), p)) ==> Right(out, BitRows(input, m), p))
      && (forall i: nat, k: nat :: startByte / 8 <= i < m && k < 8 ==> Right(out, BitRows(input, m), At(k, m, i)))
  {
    hide BitRows, Right, At;
    var nbyte := elem * size;
    var m := nbyte / 8;
    if nbyte % 8 != 0 { return -80; }
    if startByte % 8 != 0 { return -80; }
    ghost var spec := BitRows(input, m);
    var ii := startByte / 8;
    while ii < m
      invariant startByte / 8 <= ii
      invariant forall p: nat :: old(Right(out, spec, p)) ==> Right(out, spec, p)
      invariant forall i: nat, k: nat :: startByte / 8 <= i < ii && i < m && k < 8 ==> Right(out, spec, At(k, m, i))
    {
      SpreadWord(input, out, m, ii);
      ii := ii + 1;
    }
    return size * elem;
  }

  method TransBitByteScal(input: seq<byte>, out: array<byte>, size: nat, elem: nat) returns (r: int)
    requires |input| == out.Length == elem * size
    modifies out
    ensures elem * size % 8 != 0 ==> r == -80
    ensures elem * size % 8 == 0 ==> r == size * elem && out[..] == BitRows(input, elem * size / 8)
  {
    hide BitRows, Right, At;
    r := TransBitByteRemainder(input, out, size, elem, 0);
    if elem * size % 8 == 0 {
      var m := elem * size / 8;
      RightMatrix(out, BitRows(input, m), 8, m);
    }
  }

  // ---------- rows ----------

  /** General transposition of groups of `unit` bytes. */
  method TransElem(input: seq<byte>, out: array<byte>, lda: nat, ldb: nat, unit: nat) returns (r: int)
    requires |input| == out.Length == lda * ldb * unit
    modifies out
    ensures r == lda * ldb * unit && out[..] == TransposeGroups(input, lda, ldb, unit)
  {
    hide TransposeGroups, Right, At;
    ghost var spec := TransposeGroups(input, lda, ldb, unit);
    for ii := 0 to lda
      invariant forall i: nat, j: nat, c: nat :: i < ii && j < ldb && c < unit ==> Right(out, spec, At(At(j, lda, i), unit, c))
    {
      for jj := 0 to ldb
        invariant forall i: nat, j: nat, c: nat :: i < ii && j < ldb && c < unit ==> Right(out, spec, At(At(j, lda, i), unit, c))
        invariant forall j: nat, c: nat :: j < jj && c < unit ==> Right(out, spec, At(At(j, lda, ii), unit, c))
      {
        CopyGroup(input, out, lda, ldb, unit, ii, jj);
      }
    }
    RightGroups(out, spec, lda, ldb, unit);
    return lda * ldb * unit;
  }

  lemma RightGroups(out: array<byte>, spec: seq<byte>, lda: nat, ldb: nat, unit: nat)
    requires out.Length == |spec| == lda * ldb * unit
    requires forall i: nat, j: nat, c: nat :: i < lda && j < ldb && c < unit ==> Right(out, spec, At(At(j, lda, i), unit, c))
    ensures out[..] == spec
  {
    hide Right, At;
    forall p: nat | p < |spec|
      ensures Right(out, spec, p)
    {
      var g, c := Decompose(p, lda * ldb, unit);
      var j, i := Decompose(g, ldb, lda);
    }
    RightEverywhere(out, spec);
  }

  /** One memcpy of the general transposition. */
  method CopyGroup(input: seq<byte>, out: array<byte>, lda: nat, ldb: nat, unit: nat, ii: nat, jj: nat)
    requires |input| == out.Length == lda * ldb * unit && ii < lda && jj < ldb
    modifies out
    ensures forall p: nat :: old(Right(out, TransposeGroups(input, lda, ldb, unit), p)) ==> Right(out, TransposeGroups(input, lda, ldb, unit), p)
    ensures forall c: nat :: c < unit ==> Right(out, TransposeGroups(input, lda, ldb, unit), At(At(jj, lda, ii), unit, c))
  {
    hide TransposeGroups, Right;
    ghost var spec := TransposeGroups(input, lda, ldb, unit);
    for c := 0 to unit
      invariant forall p: nat :: old(Right(out, spec, p)) ==> Right(out, spec, p)
      invariant forall d: nat :: d < c ==> Right(out, spec, At(At(jj, lda, ii), unit, d))
    {
      TransposeGroupsAt(input, lda, ldb, unit, ii, jj, c);
      Put(out, spec, (jj * lda + ii) * unit + c, input[(ii * ldb + jj) * unit + c]);
    }
  }

  /** Rows of `unit` bytes: row `j` of group `k` becomes row `k` of group `j`. */
  method TransBitrowEight(input: seq<byte>, out: array<byte>, size: nat, elem: nat) returns (r: int)
    requires |input| == out.Length == size * elem
    modifies out
    ensures size % 8 != 0 ==> r == -80
    ensures size % 8 == 0 ==>
      r == size * elem && |input| == 8 * elem * (size / 8) && out[..] == TransposeGroups(input, 8, elem, size / 8)
  {
    hide TransposeGroups;
    if size % 8 != 0 { return -80; }
    BlockSizes(size / 8, elem);
    assert size == 8 * (size / 8);
    r := TransElem(input, out, 8, elem, size / 8);
  }

  /** The whole shuffle: bytes within elements, bits within bytes, rows. */
  method TransBitElemScal(input: seq<byte>, out: array<byte>, size: nat, elem: nat) returns (r: int)
    requires |input| == out.Length == size * elem
    modifies out
    ensures size % 8 != 0 ==> r == -80 && out[..] == old(out[..])
    ensures size % 8 == 0 ==>
      r == size * elem && IsBlock(input, size / 8, elem) && out[..] == Shuffled(input, size / 8, elem)
  {
    hide Transpose, TransposeGroups, BitRows;
    if size % 8 != 0 { return -80; }
    var w := size / 8;
    BlockBytes(size, elem);
    var tmp := new byte[size * elem];
    r := TransByteElemScal(input, out, size, elem);
    r := TransBitByteScal(out[..], tmp, size, elem);
    r := TransBitrowEight(tmp[..], out, size, elem);
  }

  lemma BlockBytes(size: nat, elem: nat)
    requires size % 8 == 0
    ensures var w := size / 8;
            && size * elem == elem * size == 8 * w * elem == 8 * (elem * w) == 8 * elem * w
            && elem * size % 8 == 0 && elem * size / 8 == elem * w && size == 8 * w
  {
    var w := size / 8;
    assert size == 8 * w;
    assert elem * size == 8 * (elem * w);
  }

  // ---------- the way back ----------

  /** Eight rows, at one place each. */
  method GatherRows(input: seq<byte>, out: array<byte>, elem: nat, w: nat, jj: nat, ii: nat)
    requires |input| == out.Length == 8 * elem * w && jj < elem && ii < w
    modifies out
    ensures forall p: nat :: old(Right(out, Transpose(input, 8 * elem, w), p)) ==> Right(out, Transpose(input, 8 * elem, w), p)
    ensures forall k: nat :: k < 8 ==> Right(out, Transpose(input, 8 * elem, w), At(ii, 8 * elem, At(jj, 8, k)))
  {
    hide Transpose, Right, At;
    ghost var spec := Transpose(input, 8 * elem, w);
    for kk := 0 to 8
      invariant forall p: nat :: old(Right(out, spec, p)) ==> Right(out, spec, p)
      invariant forall k: nat :: k < kk ==> Right(out, spec, At(ii, 8 * elem, At(jj, 8, k)))
    {
      AtBound(jj, elem, 8, kk);
      RowIndices(elem, w, jj, ii, kk);
      TransposeAt(input, 8 * elem, w, At(jj, 8, kk), ii);
      Put(out, spec, ii * 8 * elem + jj * 8 + kk, input[(jj * 8 + kk) * w + ii]);
    }
  }

  lemma AtIs(row: nat, width: nat, col: nat)
    ensures At(row, width, col) == row * width + col
  {}

  lemma EightTimes(i: nat, elem: nat)
    ensures i * 8 * elem == i * (8 * elem)
  {}

  lemma RowIndices(elem: nat, w: nat, jj: nat, ii: nat, kk: nat)
    ensures ii * 8 * elem + jj * 8 + kk == At(ii, 8 * elem, At(jj, 8, kk))
    ensures (jj * 8 + kk) * w + ii == At(At(jj, 8, kk), w, ii)
  {
    hide At;
    var col := jj * 8 + kk;
    AtIs(jj, 8, kk);
    AtIs(col, w, ii);
    AtIs(ii, 8 * elem, col);
    EightTimes(ii, elem);
  }

  method TransByteBitrowScal(input: seq<byte>, out: array<byte>, size: nat, elem: nat) returns (r: int)
    requires |input| == out.Length == size * elem
    modifies out
    ensures size % 8 != 0 ==> r == -80 && out[..] == old(out[..])
    ensures size % 8 == 0 ==>
      r == size * elem && |input| == 8 * elem * (size / 8) && out[..] == Transpose(input, 8 * elem, size / 8)
  {
    hide Transpose, Right, At;
    var w := size / 8;
    if size % 8 != 0 { return -80; }
    BlockBytes(size, elem);
    ghost var spec := Transpose(input, 8 * elem, w);
    for jj := 0 to elem
      invariant forall j: nat, i: nat, k: nat :: j < jj && i < w && k < 8 ==> Right(out, spec, At(i, 8 * elem, At(j, 8, k)))
    {
      for ii := 0 to w
        invariant forall j: nat, i: nat, k: nat :: j < jj && i < w && k < 8 ==> Right(out, spec, At(i, 8 * elem, At(j, 8, k)))
        invariant forall i: nat, k: nat :: i < ii && k < 8 ==> Right(out, spec, At(i, 8 * elem, At(jj, 8, k)))
      {
        GatherRows(input, out, elem, w, jj, ii);
      }
    }
    RightRows(out, spec, elem, w);
    return size * elem;
  }

  lemma RightRows(out: array<byte>, spec: seq<byte>, elem: nat, w: nat)
    requires out.Length == |spec| == 8 * elem * w
    requires forall j: nat, i: nat, k: nat :: j < elem && i < w && k < 8 ==> Right(out, spec, At(i, 8 * elem, At(j, 8, k)))
    ensures out[..] == spec
  {
    hide Right, At;
    assert 8 * elem * w == w * (8 * elem);
    forall p: nat | p < |spec|
      ensures Right(out, spec, p)
    {
      var i, r := Decompose(p, w, 8 * elem);
      var j, k := Decompose(r, elem, 8);
    }
    RightEverywhere(out, spec);
  }

  /** The eight bytes of one transposed word, one to each of eight elements. */
  method SpreadToElements(input: seq<byte>, out: array<byte>, elem: nat, ii: nat, jj: nat, ghost w: nat, ghost c: nat, ghost j: nat)
    requires |input| == out.Length == 8 * elem * w && c < w && j < elem && ii == c * (8 * elem) && jj == 8 * j
    modifies out
    ensures forall p: nat :: old(Right(out, ShuffleEight(input, elem, w), p)) ==> Right(out, ShuffleEight(input, elem, w), p)
    ensures forall k: nat :: k < 8 ==> Right(out, ShuffleEight(input, elem, w), At(At(c, 8, k), elem, j))
  {
    hide ShuffleEight, Right, TransBit8x8, LoadWord, LowByte, Column, ShiftBytes, At, Word;
    ghost var spec := ShuffleEight(input, elem, w);
    ShuffleEightAt(input, elem, w, c, 0, j);
    WordAt(input, elem, c, j);
    var x := TransBit8x8(LoadWord(input[ii + jj..ii + jj + 8]));
    ghost var word := x;
    ShiftNone(word);
    for kk := 0 to 8
      invariant x == ShiftBytes(word, kk)
      invariant forall p: nat :: old(Right(out, spec, p)) ==> Right(out, spec, p)
      invariant forall k: nat :: k < kk ==> Right(out, spec, At(At(c, 8, k), elem, j))
    {
      ShuffleEightAt(input, elem, w, c, kk, j);
      ColumnIs(Word(input, At(c, elem, j)), kk);
      ElementIndex(elem, c, kk, j);
      Put(out, spec, ii + jj / 8 + kk * elem, LowByte(x));
      ShiftMore(word, kk);
      x := x >> 8;
    }
  }

  lemma WordAt(input: seq<byte>, elem: nat, c: nat, j: nat)
    requires 8 * At(c, elem, j) + 8 <= |input|
    ensures c * (8 * elem) + 8 * j + 8 <= |input|
    ensures input[c * (8 * elem) + 8 * j..c * (8 * elem) + 8 * j + 8] == Word(input, At(c, elem, j))
  {
    assert c * (8 * elem) == 8 * (c * elem);
  }

  lemma ElementIndex(elem: nat, c: nat, kk: nat, j: nat)
    ensures c * (8 * elem) + 8 * j / 8 + kk * elem == At(At(c, 8, kk), elem, j)
  {
    assert (c * 8 + kk) * elem == c * (8 * elem) + kk * elem;
  }

  method ShuffleBitEightelemScal(input: seq<byte>, out: array<byte>, size: nat, elem: nat) returns (r: int)
    requires |input| == out.Length == size * elem
    modifies out
    ensures size % 8 != 0 ==> r == -80 && out[..] == old(out[..])
    ensures size % 8 == 0 ==>
      r == size * elem && |input| == 8 * elem * (size / 8) && out[..] == ShuffleEight(input, elem, size / 8)
  {
    hide ShuffleEight, Right, At;
    if size % 8 != 0 { return -80; }
    var nbyte := elem * size;
    ghost var w := size / 8;
    BlockBytes(size, elem);
    ghost var spec := ShuffleEight(input, elem, w);
    var jj: nat := 0;
    ghost var j := 0;
    while jj < 8 * elem
      invariant jj == 8 * j <= 8 * elem
      invariant forall l: nat, c: nat, k: nat :: l < j && c < w && k < 8 ==> Right(out, spec, At(At(c, 8, k), elem, l))
    {
      ShuffleColumn(input, out, elem, w, j, jj, nbyte);
      jj, j := jj + 8, j + 1;
    }
    RightElements(out, spec, elem, w);
    return size * elem;
  }

  lemma GroupsLeft(elem: nat, w: nat, c: nat)
    requires 0 < elem
    ensures c * (8 * elem) + 8 * elem - 1 < 8 * elem * w <==> c < w
    ensures c < w ==> c * (8 * elem) + 8 * elem == (c + 1) * (8 * elem)
  {
    MulMonotone(c + 1, w, 8 * elem);
    MulMonotone(w, c, 8 * elem);
  }

  lemma RightElements(out: array<byte>, spec: seq<byte>, elem: nat, w: nat)
    requires out.Length == |spec| == 8 * elem * w
    requires forall l: nat, c: nat, k: nat :: l < elem && c < w && k < 8 ==> Right(out, spec, At(At(c, 8, k), elem, l))
    ensures out[..] == spec
  {
    hide Right, At;
    BlockSizes(w, elem);
    forall p: nat | p < |spec|
      ensures Right(out, spec, p)
    {
      var c, k, l := PlaceOfByte(p, w, elem);
    }
    RightEverywhere(out, spec);
  }

  /** Word `jj / 8` of every group of eight elements. */
  method ShuffleColumn(input: seq<byte>, out: array<byte>, elem: nat, ghost w: nat, ghost j: nat, jj: nat, nbyte: nat)
    requires |input| == out.Length == nbyte == 8 * elem * w && j < elem && jj == 8 * j
    modifies out
    ensures forall p: nat :: old(Right(out, ShuffleEight(input, elem, w), p)) ==> Right(out, ShuffleEight(input, elem, w), p)
    ensures forall c: nat, k: nat :: c < w && k < 8 ==> Right(out, ShuffleEight(input, elem, w), At(At(c, 8, k), elem, j))
  {
    hide ShuffleEight, Right, At;
    ghost var spec := ShuffleEight(input, elem, w);
    var ii: nat := 0;
    ghost var c: nat := 0;
    while ii + 8 * elem - 1 < nbyte
      invariant c <= w && ii == c * (8 * elem)
      invariant forall p: nat :: old(Right(out, spec, p)) ==> Right(out, spec, p)
      invariant forall d: nat, k: nat :: d < c && k < 8 ==> Right(out, spec, At(At(d, 8, k), elem, j))
      decreases nbyte - ii
    {
      GroupsLeft(elem, w, c);
      SpreadToElements(input, out, elem, ii, jj, w, c, j);
      ii, c := ii + 8 * elem, c + 1;
    }
    GroupsLeft(elem, w, c);
  }

  /** The whole way back: bytes of the rows together, then bits of each group of eight elements. */
  method UntransBitElemScal(input: seq<byte>, out: array<byte>, size: nat, elem: nat) returns (r: int)
    requires |input| == out.Length == size * elem
    modifies out
    ensures size % 8 != 0 ==> r == -80 && out[..] == old(out[..])
    ensures size % 8 == 0 ==>
      r == size * elem && IsBlock(input, size / 8, elem) && out[..] == Unshuffled(input, size / 8, elem)
  {
    hide Transpose, ShuffleEight;
    if size % 8 != 0 { return -80; }
    BlockBytes(size, elem);
    var tmp := new byte[size * elem];
    r := TransByteBitrowScal(input, tmp, size, elem);
    r := ShuffleBitEightelemScal(tmp[..], out, size, elem);
  }
}
