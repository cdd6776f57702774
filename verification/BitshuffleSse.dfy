/** The SSE2 kernels.  Each fills its output with what the scalar kernel of the same step computes. */
module BitshuffleSse {
  import opened Bytes
  import opened BitWords
  import opened Matrix
  import opened BitTranspose
  import opened Simd
  import opened BitshuffleScalar

  /** A store of several bytes. */
  method Store(out: array<byte>, ghost spec: seq<byte>, q: nat, r: seq<byte>)
    requires q + |r| <= out.Length == |spec| && forall p :: 0 <= p < |r| ==> r[p] == spec[q + p]
    modifies out
    ensures forall p: nat :: q <= p < q + |r| ==> Right(out, spec, p)
    ensures forall p: nat :: old(Right(out, spec, p)) ==> Right(out, spec, p)
  {
    forall k | 0 <= k < |r| { out[q + k] := r[k]; }
  }

  // ---------- bytes within elements, element size 2, 4, 8 ----------

  /** The layout of a row of 16 bytes of rank `j`, one of each element from `ii` on. */
  function RowLayout(elem: nat, ii: nat, j: nat): Layout {
    Layout(elem * ii + j, 8 * elem, 4 * elem, 2 * elem, elem)
  }

  lemma RowAddress(elem: nat, ii: nat, j: nat, p: nat)
    requires p < 16
    ensures Address(RowLayout(elem, ii, j), p) == At(ii + p, elem, j)
  {
    var (a, b, c, d) := (p / 8 % 2, p / 4 % 2, p / 2 % 2, p % 2);
    assert p == 8 * a + 4 * b + 2 * c + d;
    assert (ii + p) * elem == ii * elem + (8 * a) * elem + (4 * b) * elem + (2 * c) * elem + d * elem;
    assert (8 * a) * elem == if a == 1 then 8 * elem else 0;
    assert (4 * b) * elem == if b == 1 then 4 * elem else 0;
    assert (2 * c) * elem == if c == 1 then 2 * elem else 0;
    assert d * elem == if d == 1 then elem else 0;
  }

  lemma RowByte(input: seq<byte>, size: nat, elem: nat, ii: nat, j: nat, r: seq<byte>, p: nat)
    requires |input| == size * elem && ii + 15 < size && j < elem && p < 16
    requires Holds(r, input, RowLayout(elem, ii, j))
    ensures At(j, size, ii + p) < |input| && r[p] == Transpose(input, size, elem)[At(j, size, ii + p)]
  {
    hide Transpose, At, Address, RowLayout;
    RowAddress(elem, ii, j, p);
    TransposeAt(input, size, elem, ii + p, j);
  }

  lemma AtShift(row: nat, width: nat, a: nat, b: nat)
    ensures At(row, width, a + b) == row * width + a + b
  {}

  lemma RowBytes(input: seq<byte>, size: nat, elem: nat, ii: nat, j: nat, r: seq<byte>, q: nat)
    requires |input| == size * elem && ii + 15 < size && j < elem && q == j * size + ii
    requires Holds(r, input, RowLayout(elem, ii, j))
    ensures q + 16 <= |input| && forall p :: 0 <= p < 16 ==> r[p] == Transpose(input, size, elem)[q + p]
  {
    hide Transpose, At, RowLayout, Address;
    RowByte(input, size, elem, ii, j, r, 15);
    AtShift(j, size, ii, 15);
    forall p | 0 <= p < 16
      ensures r[p] == Transpose(input, size, elem)[q + p]
    {
      RowByte(input, size, elem, ii, j, r, p);
      AtShift(j, size, ii, p);
    }
  }

  lemma RightRow(out: array<byte>, spec: seq<byte>, size: nat, ii: nat, j: nat, q: nat)
    requires q == j * size + ii && forall p: nat :: q <= p < q + 16 ==> Right(out, spec, p)
    ensures forall i: nat :: ii <= i < ii + 16 ==> Right(out, spec, At(j, size, i))
  {
    hide Right, At;
    forall i: nat | ii <= i < ii + 16
      ensures Right(out, spec, At(j, size, i))
    {
      AtShift(j, size, ii, i - ii);
    }
  }

  method StoreRow(input: seq<byte>, out: array<byte>, size: nat, elem: nat, ii: nat, j: nat, r: seq<byte>)
    requires |input| == out.Length == size * elem && ii + 15 < size && j < elem
    requires Holds(r, input, RowLayout(elem, ii, j))
    modifies out
    ensures forall p: nat :: old(Right(out, Transpose(input, size, elem), p)) ==> Right(out, Transpose(input, size, elem), p)
    ensures forall i: nat :: ii <= i < ii + 16 ==> Right(out, Transpose(input, size, elem), At(j, size, i))
  {
    hide *;
    ghost var spec := Transpose(input, size, elem);
    var q := j * size + ii;
    assert |r| == 16 by { HoldsLength(r, input, RowLayout(elem, ii, j)); }
    RowBytes(input, size, elem, ii, j, r, q);
    Store(out, spec, q, r);
    RightRow(out, spec, size, ii, j, q);
  }

  lemma HoldsLength(r: seq<byte>, f: seq<byte>, l: Layout)
    requires Holds(r, f, l)
    ensures |r| == 16
  {}

  method Block16(input: seq<byte>, out: array<byte>, size: nat, ii: nat)
    requires |input| == out.Length == size * 2 && ii + 15 < size
    modifies out
    ensures forall p: nat :: old(Right(out, Transpose(input, size, 2), p)) ==> Right(out, Transpose(input, size, 2), p)
    ensures forall i: nat, j: nat :: ii <= i < ii + 16 && j < 2 ==> Right(out, Transpose(input, size, 2), At(j, size, i))
  {
    hide Transpose, Right, At, Holds, UnpackLo8, UnpackHi8;
    ghost var x := 2 * ii;
    LoadHolds(input, x);
    LoadHolds(input, x + 16);
    var a0 := input[2 * ii + 0 * 16..2 * ii + 0 * 16 + 16];
    var b0 := input[2 * ii + 1 * 16..2 * ii + 1 * 16 + 16];
    Unpacked8(a0, b0, input, Layout(x, 8, 4, 2, 1), 16);
    var a1, b1 := UnpackLo8(a0, b0), UnpackHi8(a0, b0);
    Unpacked8(a1, b1, input, Layout(x, 4, 2, 1, 16), 8);
    a0, b0 := UnpackLo8(a1, b1), UnpackHi8(a1, b1);
    Unpacked8(a0, b0, input, Layout(x, 2, 1, 16, 8), 4);
    a1, b1 := UnpackLo8(a0, b0), UnpackHi8(a0, b0);
    Unpacked8(a1, b1, input, Layout(x, 1, 16, 8, 4), 2);
    a0, b0 := UnpackLo8(a1, b1), UnpackHi8(a1, b1);
    StoreRow(input, out, size, 2, ii, 0, a0);
    StoreRow(input, out, size, 2, ii, 1, b0);
  }

  method Block32(input: seq<byte>, out: array<byte>, size: nat, ii: nat)
    requires |input| == out.Length == size * 4 && ii + 15 < size
    modifies out
    ensures forall p: nat :: old(Right(out, Transpose(input, size, 4), p)) ==> Right(out, Transpose(input, size, 4), p)
    ensures forall i: nat, j: nat :: ii <= i < ii + 16 && j < 4 ==> Right(out, Transpose(input, size, 4), At(j, size, i))
  {
    hide Transpose, Right, At, Holds, UnpackLo8, UnpackHi8, UnpackLo64, UnpackHi64;
    ghost var x := 4 * ii;
    LoadHolds(input, x);
    LoadHolds(input, x + 16);
    LoadHolds(input, x + 32);
    LoadHolds(input, x + 48);
    var a0 := input[4 * ii + 0 * 16..4 * ii + 0 * 16 + 16];
    var b0 := input[4 * ii + 1 * 16..4 * ii + 1 * 16 + 16];
    var c0 := input[4 * ii + 2 * 16..4 * ii + 2 * 16 + 16];
    var d0 := input[4 * ii + 3 * 16..4 * ii + 3 * 16 + 16];
    Unpacked8(a0, b0, input, Layout(x, 8, 4, 2, 1), 16);
    Unpacked8(c0, d0, input, Layout(x + 32, 8, 4, 2, 1), 16);
    var a1, b1 := UnpackLo8(a0, b0), UnpackHi8(a0, b0);
    var c1, d1 := UnpackLo8(c0, d0), UnpackHi8(c0, d0);
    Unpacked8(a1, b1, input, Layout(x, 4, 2, 1, 16), 8);
    Unpacked8(c1, d1, input, Layout(x + 32, 4, 2, 1, 16), 8);
    a0, b0 := UnpackLo8(a1, b1), UnpackHi8(a1, b1);
    c0, d0 := UnpackLo8(c1, d1), UnpackHi8(c1, d1);
    Unpacked8(a0, b0, input, Layout(x, 2, 1, 16, 8), 4);
    Unpacked8(c0, d0, input, Layout(x + 32, 2, 1, 16, 8), 4);
    a1, b1 := UnpackLo8(a0, b0), UnpackHi8(a0, b0);
    c1, d1 := UnpackLo8(c0, d0), UnpackHi8(c0, d0);
    Unpacked64(a1, c1, input, Layout(x, 1, 16, 8, 4), 32);
    Unpacked64(b1, d1, input, Layout(x + 2, 1, 16, 8, 4), 32);
    a0, b0 := UnpackLo64(a1, c1), UnpackHi64(a1, c1);
    c0, d0 := UnpackLo64(b1, d1), UnpackHi64(b1, d1);
    StoreRow(input, out, size, 4, ii, 0, a0);
    StoreRow(input, out, size, 4, ii, 1, b0);
    StoreRow(input, out, size, 4, ii, 2, c0);
    StoreRow(input, out, size, 4, ii, 3, d0);
  }

  method Block64(input: seq<byte>, out: array<byte>, size: nat, ii: nat)
    requires |input| == out.Length == size * 8 && ii + 15 < size
    modifies out
    ensures forall p: nat :: old(Right(out, Transpose(input, size, 8), p)) ==> Right(out, Transpose(input, size, 8), p)
    ensures forall i: nat, j: nat :: ii <= i < ii + 16 && j < 8 ==> Right(out, Transpose(input, size, 8), At(j, size, i))
  {
    hide Transpose, Right, At, Holds, UnpackLo8, UnpackHi8, UnpackLo32, UnpackHi32, UnpackLo64, UnpackHi64;
    ghost var x := 8 * ii;
    LoadHolds(input, x + 0);
    LoadHolds(input, x + 16);
    LoadHolds(input, x + 32);
    LoadHolds(input, x + 48);
    LoadHolds(input, x + 64);
    LoadHolds(input, x + 80);
    LoadHolds(input, x + 96);
    LoadHolds(input, x + 112);
    var a0 := input[8 * ii + 0 * 16..8 * ii + 0 * 16 + 16];
    var b0 := input[8 * ii + 1 * 16..8 * ii + 1 * 16 + 16];
    var c0 := input[8 * ii + 2 * 16..8 * ii + 2 * 16 + 16];
    var d0 := input[8 * ii + 3 * 16..8 * ii + 3 * 16 + 16];
    var e0 := input[8 * ii + 4 * 16..8 * ii + 4 * 16 + 16];
    var f0 := input[8 * ii + 5 * 16..8 * ii + 5 * 16 + 16];
    var g0 := input[8 * ii + 6 * 16..8 * ii + 6 * 16 + 16];
    var h0 := input[8 * ii + 7 * 16..8 * ii + 7 * 16 + 16];
    Unpacked8(a0, b0, input, Layout(x + 0, 8, 4, 2, 1), 16);
    Unpacked8(c0, d0, input, Layout(x + 32, 8, 4, 2, 1), 16);
    Unpacked8(e0, f0, input, Layout(x + 64, 8, 4, 2, 1), 16);
    Unpacked8(g0, h0, input, Layout(x + 96, 8, 4, 2, 1), 16);
    var a1, b1 := UnpackLo8(a0, b0), UnpackHi8(a0, b0);
    var c1, d1 := UnpackLo8(c0, d0), UnpackHi8(c0, d0);
    var e1, f1 := UnpackLo8(e0, f0), UnpackHi8(e0, f0);
    var g1, h1 := UnpackLo8(g0, h0), UnpackHi8(g0, h0);
    Unpacked8(a1, b1, input, Layout(x + 0, 4, 2, 1, 16), 8);
    Unpacked8(c1, d1, input, Layout(x + 32, 4, 2, 1, 16), 8);
    Unpacked8(e1, f1, input, Layout(x + 64, 4, 2, 1, 16), 8);
    Unpacked8(g1, h1, input, Layout(x + 96, 4, 2, 1, 16), 8);
    a0, b0 := UnpackLo8(a1, b1), UnpackHi8(a1, b1);
    c0, d0 := UnpackLo8(c1, d1), UnpackHi8(c1, d1);
    e0, f0 := UnpackLo8(e1, f1), UnpackHi8(e1, f1);
    g0, h0 := UnpackLo8(g1, h1), UnpackHi8(g1, h1);
    Unpacked32(a0, c0, input, Layout(x + 0, 2, 1, 16, 8), 32);
    Unpacked32(b0, d0, input, Layout(x + 4, 2, 1, 16, 8), 32);
    Unpacked32(e0, g0, input, Layout(x + 64, 2, 1, 16, 8), 32);
    Unpacked32(f0, h0, input, Layout(x + 68, 2, 1, 16, 8), 32);
    a1, b1 := UnpackLo32(a0, c0), UnpackHi32(a0, c0);
    c1, d1 := UnpackLo32(b0, d0), UnpackHi32(b0, d0);
    e1, f1 := UnpackLo32(e0, g0), UnpackHi32(e0, g0);
    g1, h1 := UnpackLo32(f0, h0), UnpackHi32(f0, h0);
    Unpacked64(a1, e1, input, Layout(x + 0, 1, 32, 16, 8), 64);
    Unpacked64(b1, f1, input, Layout(x + 2, 1, 32, 16, 8), 64);
    Unpacked64(c1, g1, input, Layout(x + 4, 1, 32, 16, 8), 64);
    Unpacked64(d1, h1, input, Layout(x + 6, 1, 32, 16, 8), 64);
    a0, b0 := UnpackLo64(a1, e1), UnpackHi64(a1, e1);
    c0, d0 := UnpackLo64(b1, f1), UnpackHi64(b1, f1);
    e0, f0 := UnpackLo64(c1, g1), UnpackHi64(c1, g1);
    g0, h0 := UnpackLo64(d1, h1), UnpackHi64(d1, h1);
    StoreRow(input, out, size, 8, ii, 0, a0);
    StoreRow(input, out, size, 8, ii, 1, b0);
    StoreRow(input, out, size, 8, ii, 2, c0);
    StoreRow(input, out, size, 8, ii, 3, d0);
    StoreRow(input, out, size, 8, ii, 4, e0);
    StoreRow(input, out, size, 8, ii, 5, f0);
    StoreRow(input, out, size, 8, ii, 6, g0);
    StoreRow(input, out, size, 8, ii, 7, h0);
  }

  /** Where a loop of steps of a fixed width is while it goes through `n`. */
  predicate Steps(n: nat, i: nat, step: nat) {
    if step == 16 then i % 16 == 0 && i <= n - n % 16 else i % 32 == 0 && i <= n - n % 32
  }

  /** n - n % step, for the two widths of registers. */
  function WholePart(n: nat, step: nat): (r: nat)
    requires step == 16 || step == 32
    ensures r <= n
  {
    n - (if step == 16 then n % 16 else n % 32)
  }

  lemma FirstStep(n: nat, step: nat)
    requires step == 16 || step == 32
    ensures Steps(n, 0, step)
  {
    if step == 16 {} else {}
  }

  lemma Next16(n: nat, i: nat)
    requires i % 16 == 0 && i <= n - n % 16
    ensures (i + 16) % 16 == 0
    ensures i + 15 < n ==> i + 16 <= n - n % 16
    ensures i + 15 >= n ==> i == n - n % 16
  {}

  lemma MultipleOf16(i: nat)
    requires i % 16 == 0
    ensures i % 8 == 0
  {}

  lemma Next32(n: nat, i: nat)
    requires i % 32 == 0 && i <= n - n % 32
    ensures (i + 32) % 32 == 0
    ensures i + 31 < n ==> i + 32 <= n - n % 32
    ensures i + 31 >= n ==> i == n - n % 32
  {}

  lemma MultipleOf32(i: nat)
    requires i % 32 == 0
    ensures i % 8 == 0
  {}

  lemma NextStep(n: nat, i: nat, step: nat)
    requires (step == 16 || step == 32) && Steps(n, i, step)
    ensures i % 8 == 0
    ensures i + (step - 1) < n ==> Steps(n, i + step, step)
    ensures i + (step - 1) >= n ==> i == WholePart(n, step)
  {
    if step == 16 {
      Next16(n, i);
      MultipleOf16(i);
    } else {
      Next32(n, i);
      MultipleOf32(i);
    }
  }

  method TransByteElemSse16(input: seq<byte>, out: array<byte>, size: nat) returns (r: int)
    requires |input| == out.Length == size * 2
    modifies out
    ensures r == size * 2 && out[..] == Transpose(input, size, 2)
  {
    hide Transpose, Right, At, Steps, WholePart;
    ghost var spec := Transpose(input, size, 2);
    var ii: nat := 0;
    FirstStep(size, 16);
    while ii + 15 < size
      invariant Steps(size, ii, 16)
      invariant forall i: nat, j: nat :: i < ii && j < 2 ==> Right(out, spec, At(j, size, i))
    {
      NextStep(size, ii, 16);
      Block16(input, out, size, ii);
      ii := ii + 16;
    }
    NextStep(size, ii, 16);
    r := TransByteElemRemainder(input, out, size, 2, WholePart(size, 16));
    RightMatrix(out, spec, 2, size);
  }

  method TransByteElemSse32(input: seq<byte>, out: array<byte>, size: nat) returns (r: int)
    requires |input| == out.Length == size * 4
    modifies out
    ensures r == size * 4 && out[..] == Transpose(input, size, 4)
  {
    hide Transpose, Right, At, Steps, WholePart;
    ghost var spec := Transpose(input, size, 4);
    var ii: nat := 0;
    FirstStep(size, 16);
    while ii + 15 < size
      invariant Steps(size, ii, 16)
      invariant forall i: nat, j: nat :: i < ii && j < 4 ==> Right(out, spec, At(j, size, i))
    {
      NextStep(size, ii, 16);
      Block32(input, out, size, ii);
      ii := ii + 16;
    }
    NextStep(size, ii, 16);
    r := TransByteElemRemainder(input, out, size, 4, WholePart(size, 16));
    RightMatrix(out, spec, 4, size);
  }

  method TransByteElemSse64(input: seq<byte>, out: array<byte>, size: nat) returns (r: int)
    requires |input| == out.Length == size * 8
    modifies out
    ensures r == size * 8 && out[..] == Transpose(input, size, 8)
  {
    hide Transpose, Right, At, Steps, WholePart;
    ghost var spec := Transpose(input, size, 8);
    var ii: nat := 0;
    FirstStep(size, 16);
    while ii + 15 < size
      invariant Steps(size, ii, 16)
      invariant forall i: nat, j: nat :: i < ii && j < 8 ==> Right(out, spec, At(j, size, i))
    {
      NextStep(size, ii, 16);
      Block64(input, out, size, ii);
      ii := ii + 16;
    }
    NextStep(size, ii, 16);
    r := TransByteElemRemainder(input, out, size, 8, WholePart(size, 16));
    RightMatrix(out, spec, 8, size);
  }

  // ---------- elements of any size ----------

  /** TRANS_ELEM_TYPE: the matrix of typed values of `unit` bytes, transposed, eight rows at a time. */
  method TransElemType(input: seq<byte>, out: array<byte>, lda: nat, ldb: nat, unit: nat)
    requires |input| == out.Length == lda * ldb * unit
    modifies out
    ensures out[..] == TransposeGroups(input, lda, ldb, unit)
  {
    hide TransposeGroups, Right, At;
    ghost var spec := TransposeGroups(input, lda, ldb, unit);
    var ii: nat := 0;
    while ii + 7 < lda
      invariant ii % 8 == 0 && ii <= lda - lda % 8
      invariant forall i: nat, j: nat, c: nat :: i < ii && j < ldb && c < unit ==> Right(out, spec, At(At(j, lda, i), unit, c))
    {
      for jj := 0 to ldb
        invariant forall i: nat, j: nat, c: nat :: i < ii && j < ldb && c < unit ==> Right(out, spec, At(At(j, lda, i), unit, c))
        invariant forall i: nat, j: nat, c: nat :: ii <= i < ii + 8 && j < jj && c < unit ==> Right(out, spec, At(At(j, lda, i), unit, c))
      {
        EightGroups(input, out, lda, ldb, unit, ii, jj);
      }
      ii := ii + 8;
    }
    ii := lda - lda % 8;
    while ii < lda
      invariant ii <= lda
      invariant forall i: nat, j: nat, c: nat :: i < ii && j < ldb && c < unit ==> Right(out, spec, At(At(j, lda, i), unit, c))
    {
      for jj := 0 to ldb
        invariant forall i: nat, j: nat, c: nat :: i < ii && j < ldb && c < unit ==> Right(out, spec, At(At(j, lda, i), unit, c))
        invariant forall j: nat, c: nat :: j < jj && c < unit ==> Right(out, spec, At(At(j, lda, ii), unit, c))
      {
        CopyGroup(input, out, lda, ldb, unit, ii, jj);
      }
      ii := ii + 1;
    }
    RightGroups(out, spec, lda, ldb, unit);
  }

  method EightGroups(input: seq<byte>, out: array<byte>, lda: nat, ldb: nat, unit: nat, ii: nat, jj: nat)
    requires |input| == out.Length == lda * ldb * unit && ii + 7 < lda && jj < ldb
    modifies out
    ensures forall p: nat :: old(Right(out, TransposeGroups(input, lda, ldb, unit), p)) ==> Right(out, TransposeGroups(input, lda, ldb, unit), p)
    ensures forall i: nat, c: nat :: ii <= i < ii + 8 && c < unit ==>
              Right(out, TransposeGroups(input, lda, ldb, unit), At(At(jj, lda, i), unit, c))
  {
    hide TransposeGroups, Right, At;
    ghost var spec := TransposeGroups(input, lda, ldb, unit);
    for kk := 0 to 8
      invariant forall p: nat :: old(Right(out, spec, p)) ==> Right(out, spec, p)
      invariant forall i: nat, c: nat :: ii <= i < ii + kk && c < unit ==> Right(out, spec, At(At(jj, lda, i), unit, c))
    {
      CopyGroup(input, out, lda, ldb, unit, ii + kk, jj);
    }
  }

  /**
   Transposing values of `u` bytes, then the bytes within the values, then the rows, is
   transposing the bytes within elements of `n` values.
   */
  lemma Hierarchical(s: seq<byte>, size: nat, n: nat, u: nat)
    requires |s| == size * n * u
    ensures size * (n * u) == size * n * u == u * n * size
    ensures var t := TransposeGroups(s, size, n, u);
            var b := Transpose(t, size * n, u);
            TransposeGroups(b, u, n, size) == Transpose(s, size, n * u)
  {
    hide Transpose, TransposeGroups, At;
    HierarchicalSizes(size, n, u);
    var t := TransposeGroups(s, size, n, u);
    var b := Transpose(t, size * n, u);
    var r := TransposeGroups(b, u, n, size);
    var spec := Transpose(s, size, n * u);
    forall p: nat | p < |s|
      ensures r[p] == spec[p]
    {
      var g, c := Decompose(p, n * u, size);
      var jj, k := Decompose(g, n, u);
      HierarchicalAt(s, size, n, u, c, jj, k);
    }
  }

  lemma HierarchicalSizes(size: nat, n: nat, u: nat)
    ensures size * (n * u) == size * n * u == u * n * size == (n * u) * size == (size * n) * u
    ensures n * size == size * n
  {}

  lemma HierarchicalAt(s: seq<byte>, size: nat, n: nat, u: nat, c: nat, jj: nat, k: nat)
    requires |s| == size * n * u && c < size && jj < n && k < u
    ensures size * (n * u) == |s| == u * n * size
    ensures var t := TransposeGroups(s, size, n, u);
            var b := Transpose(t, size * n, u);
            var p := At(At(jj, u, k), size, c);
            p < |s| && TransposeGroups(b, u, n, size)[p] == Transpose(s, size, n * u)[p]
  {
    hide Transpose, TransposeGroups, At;
    HierarchicalSizes(size, n, u);
    var t := TransposeGroups(s, size, n, u);
    var b := Transpose(t, size * n, u);
    AtBound(jj, n, u, k);
    TransposeAt(s, size, n * u, c, At(jj, u, k));
    TransposeGroupsAt(b, u, n, size, k, jj, c);
    // place At(At(k, n, jj), size, c) of b is byte k of value At(jj, size, c) of t
    AtAssoc(k, jj, n, size, c);
    AtBound(jj, n, size, c);
    TransposeAt(t, size * n, u, At(jj, size, c), k);
    TransposeGroupsAt(s, size, n, u, c, jj, k);
    AtAssoc(c, jj, n, u, k);
  }

  /** Elements of one byte are transposed by copying. */
  lemma TransposeColumn(s: seq<byte>)
    ensures |s| * 1 == |s| && Transpose(s, |s|, 1) == s
  {
    hide Transpose;
    forall p: nat | p < |s|
      ensures Transpose(s, |s|, 1)[p] == s[p]
    {
      TransposeAt(s, |s|, 1, p, 0);
      assert At(0, |s|, p) == p && At(p, 1, 0) == p;
    }
  }

  method Copy(input: seq<byte>, out: array<byte>, size: nat, elem: nat) returns (r: int)
    requires |input| == out.Length == size * elem
    modifies out
    ensures r == size * elem && out[..] == input
  {
    forall k | 0 <= k < |input| { out[k] := input[k]; }
    return size * elem;
  }

  method TransByteElemSse(input: seq<byte>, out: array<byte>, size: nat, elem: nat) returns (r: int)
    requires |input| == out.Length == size * elem
    modifies out
    ensures r == size * elem && out[..] == Transpose(input, size, elem)
  {
    hide Transpose, TransposeGroups;
    if elem == 1 {
      r := Copy(input, out, size, elem);
      TransposeColumn(input);
    } else if elem == 2 {
      r := TransByteElemSse16(input, out, size);
    } else if elem == 4 {
      r := TransByteElemSse32(input, out, size);
    } else if elem == 8 {
      r := TransByteElemSse64(input, out, size);
    } else if elem % 4 != 0 {
      r := TransByteElemScal(input, out, size, elem);
    } else if elem % 8 == 0 {
      var n := elem / 8;
      HierarchicalSizes(size, n, 8);
      assert elem == n * 8;
      var tmp := new byte[size * elem];
      TransElemType(input, out, size, n, 8);
      Hierarchical(input, size, n, 8);
      r := TransByteElemSse64(out[..], tmp, size * n);
      var _ := TransElem(tmp[..], out, 8, n, size);
    } else {
      var n := elem / 4;
      HierarchicalSizes(size, n, 4);
      assert elem == n * 4;
      var tmp := new byte[size * elem];
      TransElemType(input, out, size, n, 4);
      Hierarchical(input, size, n, 4);
      r := TransByteElemSse32(out[..], tmp, size * n);
      var _ := TransElem(tmp[..], out, 4, n, size);
    }
  }

  // ---------- bits within bytes, by masks ----------

  /**
   The eight masks of a register of 16 or 32 bytes, each stored to its row of bits: the top
   bits first, then those shifted up to the top.
   */
  method MaskRows(input: seq<byte>, out: array<byte>, nbyte: nat, ii: nat, width: nat)
    requires |input| == out.Length == nbyte && nbyte % 8 == 0 && ii % 8 == 0 && ii + width <= nbyte
    requires width == 16 || width == 32
    modifies out
    ensures var m := nbyte / 8;
            && (forall p: nat :: old(Right(out, BitRows(input, m), p)) ==> Right(out, BitRows(input, m), p))
            && (forall k: nat, i: nat :: k < 8 && ii / 8 <= i < (ii + width) / 8 ==> Right(out, BitRows(input, m), At(k, m, i)))
  {
    hide BitRows, Right, At, MoveMask, ShiftLanes, ShiftedBy;
    ghost var m := nbyte / 8;
    ghost var spec := BitRows(input, m);
    ghost var j, groups := ii / 8, width / 8;
    var reg := input[ii..ii + width];
    ghost var was := reg;
    NotShifted(reg);
    for kk := 0 to 8
      invariant |reg| == width && ShiftedBy(reg, was, kk)
      invariant forall p: nat :: old(Right(out, spec, p)) ==> Right(out, spec, p)
      invariant forall k: nat, i: nat :: 8 - kk <= k < 8 && j <= i < j + groups ==> Right(out, spec, At(k, m, i))
    {
      var bt := MoveMask(reg);
      RowIndex(7 - kk, m, j);
      MaskRow(input, m, j, groups, kk, reg, was, (7 - kk) * m + j);
      ShiftOnce(reg, was, kk);
      reg := ShiftLanes(reg);
      Store(out, spec, ((7 - kk) * nbyte + ii) / 8, bt);
      RightMaskRow(out, spec, m, j, groups, 7 - kk);
    }
  }

  lemma RowIndex(k: nat, m: nat, j: nat)
    ensures (k * (8 * m) + 8 * j) / 8 == k * m + j
  {
    assert k * (8 * m) == 8 * (k * m);
  }

  lemma MaskRow(input: seq<byte>, m: nat, j: nat, groups: nat, kk: nat, reg: seq<byte>, was: seq<byte>, q: nat)
    requires |input| == 8 * m && 0 < groups && j + groups <= m && kk < 8 && q == (7 - kk) * m + j
    requires was == input[8 * j..8 * j + 8 * groups] && |reg| == 8 * groups && ShiftedBy(reg, was, kk)
    ensures q + groups <= |input|
    ensures forall g :: 0 <= g < groups ==> MoveMask(reg)[g] == BitRows(input, m)[q + g]
  {
    hide *;
    forall g | 0 <= g < groups
      ensures q + g < |input| && MoveMask(reg)[g] == BitRows(input, m)[q + g]
    {
      MaskRowByte(input, m, j, groups, kk, reg, was, q, g);
    }
    MaskRowByte(input, m, j, groups, kk, reg, was, q, groups - 1);
  }

  lemma MaskRowByte(input: seq<byte>, m: nat, j: nat, groups: nat, kk: nat, reg: seq<byte>, was: seq<byte>, q: nat, g: nat)
    requires |input| == 8 * m && g < groups && j + groups <= m && kk < 8 && q == (7 - kk) * m + j
    requires was == input[8 * j..8 * j + 8 * groups] && |reg| == 8 * groups && ShiftedBy(reg, was, kk)
    ensures q + g < |input| && g < |MoveMask(reg)| && MoveMask(reg)[g] == BitRows(input, m)[q + g]
  {
    hide *;
    MaskIsColumn(reg, was, kk, g);
    BitRowsAt(input, m, 7 - kk, j + g);
    AtShift(7 - kk, m, j, g);
    WordOfRegister(input, 8 * j, groups, g, j + g, was);
  }

  /** A word of a register is a word of the buffer it was loaded from. */
  lemma WordOfRegister(input: seq<byte>, x: nat, groups: nat, g: nat, r: nat, was: seq<byte>)
    requires x + 8 * groups <= |input| && g < groups && 8 * r == x + 8 * g && was == input[x..x + 8 * groups]
    ensures Word(was, g) == Word(input, r)
  {
    forall p | 0 <= p < 8
      ensures Word(was, g)[p] == Word(input, r)[p]
    {
      assert was[8 * g + p] == input[x + (8 * g + p)];
    }
  }

  lemma RightMaskRow(out: array<byte>, spec: seq<byte>, m: nat, j: nat, groups: nat, k: nat)
    requires var q := k * m + j; forall p: nat :: q <= p < q + groups ==> Right(out, spec, p)
    ensures forall i: nat :: j <= i < j + groups ==> Right(out, spec, At(k, m, i))
  {
    hide Right, At;
    forall i: nat | j <= i < j + groups
      ensures Right(out, spec, At(k, m, i))
    {
      AtShift(k, m, j, i - j);
    }
  }

  method TransBitByteSse(input: seq<byte>, out: array<byte>, size: nat, elem: nat) returns (r: int)
    requires |input| == out.Length == elem * size
    modifies out
    ensures elem * size % 8 != 0 ==> r == -80
    ensures elem * size % 8 == 0 ==> r == size * elem && out[..] == BitRows(input, elem * size / 8)
  {
    hide BitRows, Right, At;
    var nbyte := elem * size;
    if nbyte % 8 != 0 { return -80; }
    r := TransBitByteMasks(input, out, size, elem, nbyte, 16);
  }

  /** Whole registers by masks, the remainder by words. */
  method TransBitByteMasks(input: seq<byte>, out: array<byte>, size: nat, elem: nat, nbyte: nat, width: nat) returns (r: int)
    requires |input| == out.Length == nbyte == elem * size && nbyte % 8 == 0 && (width == 16 || width == 32)
    modifies out
    ensures r == size * elem && out[..] == BitRows(input, nbyte / 8)
  {
    hide BitRows, Right, At, Steps, WholePart;
    ghost var m := nbyte / 8;
    ghost var spec := BitRows(input, m);
    var ii: nat := 0;
    FirstStep(nbyte, width);
    while ii + (width - 1) < nbyte
      invariant Steps(nbyte, ii, width)
      invariant forall k: nat, i: nat :: k < 8 && i < ii / 8 ==> Right(out, spec, At(k, m, i))
      decreases nbyte - ii
    {
      NextStep(nbyte, ii, width);
      MaskRows(input, out, nbyte, ii, width);
      ii := ii + width;
    }
    NextStep(nbyte, ii, width);
    r := TransBitByteRemainder(input, out, size, elem, WholePart(nbyte, width));
    RightMatrix(out, spec, 8, m);
  }

  method TransBitElemSse(input: seq<byte>, out: array<byte>, size: nat, elem: nat) returns (r: int)
    requires |input| == out.Length == size * elem
    modifies out
    ensures size % 8 != 0 ==> r == -80 && out[..] == old(out[..])
    ensures size % 8 == 0 ==>
      r == size * elem && IsBlock(input, size / 8, elem) && out[..] == Shuffled(input, size / 8, elem)
  {
    hide Transpose, TransposeGroups, BitRows;
    if size % 8 != 0 { return -80; }
    BlockBytes(size, elem);
    var tmp := new byte[size * elem];
    r := TransByteElemSse(input, out, size, elem);
    r := TransBitByteSse(out[..], tmp, size, elem);
    r := TransBitrowEight(tmp[..], out, size, elem);
  }

  // ---------- the way back: bytes of the rows together ----------

  /** Sixteen bytes of row ii + k. */
  function RowPart(input: seq<byte>, elem: nat, w: nat, ii: nat, jj: nat, k: nat): (r: seq<byte>)
    requires |input| == 8 * elem * w && ii + k < 8 * elem && jj + 16 <= w
    ensures |r| == 16 && Holds(r, input, Layout(ii * w + jj + k * w, 8, 4, 2, 1))
  {
    assert (ii + k) * w == ii * w + k * w;
    AtBound(ii + k, 8 * elem, w, jj + 15);
    LoadHolds(input, (ii + k) * w + jj);
    input[(ii + k) * w + jj..(ii + k) * w + jj + 16]
  }

  /** The layout of two columns of 8 bytes. */
  function ColumnsLayout(x: nat, w: nat): Layout {
    Layout(x, 1, 4 * w, 2 * w, w)
  }

  lemma ColumnsAddress(x: nat, w: nat, k: nat)
    requires k < 8
    ensures Address(ColumnsLayout(x, w), k) == x + k * w && Address(ColumnsLayout(x, w), 8 + k) == x + 1 + k * w
  {
    var (b, c, d) := (k / 4 % 2, k / 2 % 2, k % 2);
    assert k == 4 * b + 2 * c + d;
    assert k * w == (4 * b) * w + (2 * c) * w + d * w;
    assert (4 * b) * w == if b == 1 then 4 * w else 0;
    assert (2 * c) * w == if c == 1 then 2 * w else 0;
    assert d * w == if d == 1 then w else 0;
  }

  lemma ColumnByte(input: seq<byte>, elem: nat, w: nat, ii: nat, jj: nat, q: nat, r: seq<byte>, h: nat, k: nat)
    requires |input| == 8 * elem * w && ii + 8 <= 8 * elem && jj + 16 <= w && q + h < 16 && h < 2 && k < 8
    requires Holds(r, input, ColumnsLayout(ii * w + jj + q, w))
    ensures At(jj + q + h, 8 * elem, ii + k) < |input|
    ensures r[8 * h + k] == Transpose(input, 8 * elem, w)[At(jj + q + h, 8 * elem, ii + k)]
  {
    hide Transpose, Address, ColumnsLayout;
    TransposeAt(input, 8 * elem, w, ii + k, jj + q + h);
    ColumnsAddress(ii * w + jj + q, w, k);
    assert (ii + k) * w == ii * w + k * w;
    assert Address(ColumnsLayout(ii * w + jj + q, w), 8 * h + k) == At(ii + k, w, jj + q + h);
  }

  /** storel and storeh: the halves of a register go to two output rows. */
  method StoreColumns(input: seq<byte>, out: array<byte>, elem: nat, w: nat, ii: nat, jj: nat, q: nat, r: seq<byte>)
    requires |input| == out.Length == 8 * elem * w && ii + 8 <= 8 * elem && jj + 16 <= w && q + 2 <= 16
    requires Holds(r, input, ColumnsLayout(ii * w + jj + q, w))
    modifies out
    ensures forall p: nat :: old(Right(out, Transpose(input, 8 * elem, w), p)) ==> Right(out, Transpose(input, 8 * elem, w), p)
    ensures forall j: nat, i: nat :: jj + q <= j < jj + q + 2 && ii <= i < ii + 8 ==> Right(out, Transpose(input, 8 * elem, w), At(j, 8 * elem, i))
  {
    hide *;
    ghost var spec := Transpose(input, 8 * elem, w);
    HoldsLength(r, input, ColumnsLayout(ii * w + jj + q, w));
    for h := 0 to 2
      invariant forall p: nat :: old(Right(out, spec, p)) ==> Right(out, spec, p)
      invariant forall j: nat, i: nat :: jj + q <= j < jj + q + h && ii <= i < ii + 8 ==> Right(out, spec, At(j, 8 * elem, i))
    {
      var o := (jj + q + h) * (8 * elem) + ii;
      var part := r[8 * h..8 * h + 8];
      ColumnBytes(input, elem, w, ii, jj, q, r, h, o, part);
      Store(out, spec, o, part);
      RightColumn(out, spec, 8 * elem, ii, jj + q + h, o);
    }
  }

  lemma ColumnBytes(input: seq<byte>, elem: nat, w: nat, ii: nat, jj: nat, q: nat, r: seq<byte>, h: nat, o: nat, part: seq<byte>)
    requires |input| == 8 * elem * w && ii + 8 <= 8 * elem && jj + 16 <= w && q + h < 16 && h < 2 && |r| == 16
    requires Holds(r, input, ColumnsLayout(ii * w + jj + q, w)) && o == (jj + q + h) * (8 * elem) + ii
    requires part == r[8 * h..8 * h + 8]
    ensures o + 8 <= |input|
    ensures forall k :: 0 <= k < 8 ==> part[k] == Transpose(input, 8 * elem, w)[o + k]
  {
    hide Transpose, At, ColumnsLayout, Holds;
    ColumnByte(input, elem, w, ii, jj, q, r, h, 7);
    AtShift(jj + q + h, 8 * elem, ii, 7);
    forall k | 0 <= k < 8
      ensures part[k] == Transpose(input, 8 * elem, w)[o + k]
    {
      ColumnByte(input, elem, w, ii, jj, q, r, h, k);
      AtShift(jj + q + h, 8 * elem, ii, k);
    }
  }

  lemma RightColumn(out: array<byte>, spec: seq<byte>, rows: nat, ii: nat, j: nat, o: nat)
    requires o == j * rows + ii && forall p: nat :: o <= p < o + 8 ==> Right(out, spec, p)
    ensures forall i: nat :: ii <= i < ii + 8 ==> Right(out, spec, At(j, rows, i))
  {
    hide Right, At;
    forall i: nat | ii <= i < ii + 8
      ensures Right(out, spec, At(j, rows, i))
    {
      AtShift(j, rows, ii, i - ii);
    }
  }

  /** Eight rows, sixteen places: register m gets the columns of places 2 m and 2 m + 1. */
  method EightRowColumns(input: seq<byte>, elem: nat, w: nat, ii: nat, jj: nat) returns (r: seq<seq<byte>>)
    requires |input| == 8 * elem * w && ii + 8 <= 8 * elem && jj + 16 <= w
    ensures |r| == 8 && forall m: nat :: m < 8 ==> Holds(r[m], input, ColumnsLayout(ii * w + jj + 2 * m, w))
  {
    hide Holds, UnpackLo8, UnpackHi8, UnpackLo16, UnpackHi16, UnpackLo32, UnpackHi32, RowPart;
    ghost var x := ii * w + jj;
    var a0 := RowPart(input, elem, w, ii, jj, 0);
    var b0 := RowPart(input, elem, w, ii, jj, 1);
    var c0 := RowPart(input, elem, w, ii, jj, 2);
    var d0 := RowPart(input, elem, w, ii, jj, 3);
    var e0 := RowPart(input, elem, w, ii, jj, 4);
    var f0 := RowPart(input, elem, w, ii, jj, 5);
    var g0 := RowPart(input, elem, w, ii, jj, 6);
    var h0 := RowPart(input, elem, w, ii, jj, 7);
    Unpacked8(a0, b0, input, Layout(x + 0 * w, 8, 4, 2, 1), w);
    Unpacked8(c0, d0, input, Layout(x + 2 * w, 8, 4, 2, 1), w);
    Unpacked8(e0, f0, input, Layout(x + 4 * w, 8, 4, 2, 1), w);
    Unpacked8(g0, h0, input, Layout(x + 6 * w, 8, 4, 2, 1), w);
    var a1, b1 := UnpackLo8(a0, b0), UnpackLo8(c0, d0);
    var c1, d1 := UnpackLo8(e0, f0), UnpackLo8(g0, h0);
    var e1, f1 := UnpackHi8(a0, b0), UnpackHi8(c0, d0);
    var g1, h1 := UnpackHi8(e0, f0), UnpackHi8(g0, h0);
    Unpacked16(a1, b1, input, Layout(x, 4, 2, 1, w), 2 * w);
    Unpacked16(c1, d1, input, Layout(x + 4 * w, 4, 2, 1, w), 2 * w);
    Unpacked16(e1, f1, input, Layout(x + 8, 4, 2, 1, w), 2 * w);
    Unpacked16(g1, h1, input, Layout(x + 4 * w + 8, 4, 2, 1, w), 2 * w);
    a0, b0 := UnpackLo16(a1, b1), UnpackLo16(c1, d1);
    c0, d0 := UnpackHi16(a1, b1), UnpackHi16(c1, d1);
    e0, f0 := UnpackLo16(e1, f1), UnpackLo16(g1, h1);
    g0, h0 := UnpackHi16(e1, f1), UnpackHi16(g1, h1);
    Unpacked32(a0, b0, input, Layout(x + 0, 2, 1, 2 * w, w), 4 * w);
    Unpacked32(c0, d0, input, Layout(x + 4, 2, 1, 2 * w, w), 4 * w);
    Unpacked32(e0, f0, input, Layout(x + 8, 2, 1, 2 * w, w), 4 * w);
    Unpacked32(g0, h0, input, Layout(x + 12, 2, 1, 2 * w, w), 4 * w);
    a1, b1 := UnpackLo32(a0, b0), UnpackHi32(a0, b0);
    c1, d1 := UnpackLo32(c0, d0), UnpackHi32(c0, d0);
    e1, f1 := UnpackLo32(e0, f0), UnpackHi32(e0, f0);
    g1, h1 := UnpackLo32(g0, h0), UnpackHi32(g0, h0);
    r := [a1, b1, c1, d1, e1, f1, g1, h1];
  }

  /** Eight rows, sixteen places, stored. */
  method BitrowBlock(input: seq<byte>, out: array<byte>, elem: nat, w: nat, ii: nat, jj: nat)
    requires |input| == out.Length == 8 * elem * w && ii + 8 <= 8 * elem && jj + 16 <= w
    modifies out
    ensures forall p: nat :: old(Right(out, Transpose(input, 8 * elem, w), p)) ==> Right(out, Transpose(input, 8 * elem, w), p)
    ensures forall j: nat, i: nat :: jj <= j < jj + 16 && ii <= i < ii + 8 ==> Right(out, Transpose(input, 8 * elem, w), At(j, 8 * elem, i))
  {
    hide Transpose, Right, At, Holds;
    ghost var spec := Transpose(input, 8 * elem, w);
    var r := EightRowColumns(input, elem, w, ii, jj);
    for m := 0 to 8
      invariant forall p: nat :: old(Right(out, spec, p)) ==> Right(out, spec, p)
      invariant forall j: nat, i: nat :: jj <= j < jj + 2 * m && ii <= i < ii + 8 ==> Right(out, spec, At(j, 8 * elem, i))
    {
      StoreColumns(input, out, elem, w, ii, jj, 2 * m, r[m]);
    }
  }

  /** The last places of eight rows, byte by byte. */
  method BitrowRemainder(input: seq<byte>, out: array<byte>, elem: nat, w: nat, ii: nat, start: nat)
    requires |input| == out.Length == 8 * elem * w && ii + 8 <= 8 * elem && start <= w
    modifies out
    ensures forall p: nat :: old(Right(out, Transpose(input, 8 * elem, w), p)) ==> Right(out, Transpose(input, 8 * elem, w), p)
    ensures forall j: nat, i: nat :: start <= j < w && ii <= i < ii + 8 ==> Right(out, Transpose(input, 8 * elem, w), At(j, 8 * elem, i))
  {
    hide Transpose, Right;
    ghost var spec := Transpose(input, 8 * elem, w);
    for jj := start to w
      invariant forall p: nat :: old(Right(out, spec, p)) ==> Right(out, spec, p)
      invariant forall j: nat, i: nat :: start <= j < jj && ii <= i < ii + 8 ==> Right(out, spec, At(j, 8 * elem, i))
    {
      for k := 0 to 8
        invariant forall p: nat :: old(Right(out, spec, p)) ==> Right(out, spec, p)
        invariant forall j: nat, i: nat :: start <= j < jj && ii <= i < ii + 8 ==> Right(out, spec, At(j, 8 * elem, i))
        invariant forall i: nat :: ii <= i < ii + k ==> Right(out, spec, At(jj, 8 * elem, i))
      {
        TransposeAt(input, 8 * elem, w, ii + k, jj);
        Put(out, spec, jj * (8 * elem) + (ii + k), input[(ii + k) * w + jj]);
      }
    }
  }

  /** Eight rows, all places. */
  method BitrowStripe(input: seq<byte>, out: array<byte>, elem: nat, w: nat, ii: nat)
    requires |input| == out.Length == 8 * elem * w && ii + 8 <= 8 * elem
    modifies out
    ensures forall p: nat :: old(Right(out, Transpose(input, 8 * elem, w), p)) ==> Right(out, Transpose(input, 8 * elem, w), p)
    ensures forall j: nat, i: nat :: j < w && ii <= i < ii + 8 ==> Right(out, Transpose(input, 8 * elem, w), At(j, 8 * elem, i))
  {
    hide Transpose, Right, At, Steps, WholePart;
    ghost var spec := Transpose(input, 8 * elem, w);
    var jj: nat := 0;
    FirstStep(w, 16);
    while jj + 15 < w
      invariant Steps(w, jj, 16)
      invariant forall p: nat :: old(Right(out, spec, p)) ==> Right(out, spec, p)
      invariant forall j: nat, i: nat :: j < jj && ii <= i < ii + 8 ==> Right(out, spec, At(j, 8 * elem, i))
    {
      NextStep(w, jj, 16);
      BitrowBlock(input, out, elem, w, ii, jj);
      jj := jj + 16;
    }
    NextStep(w, jj, 16);
    BitrowRemainder(input, out, elem, w, ii, WholePart(w, 16));
  }

  method TransByteBitrowSse(input: seq<byte>, out: array<byte>, size: nat, elem: nat) returns (r: int)
    requires |input| == out.Length == size * elem
    modifies out
    ensures size % 8 != 0 ==> r == -80 && out[..] == old(out[..])
    ensures size % 8 == 0 ==>
      r == size * elem && |input| == 8 * elem * (size / 8) && out[..] == Transpose(input, 8 * elem, size / 8)
  {
    hide Transpose, Right, At;
    if size % 8 != 0 { return -80; }
    var nrows, w := 8 * elem, size / 8;
    BlockBytes(size, elem);
    ghost var spec := Transpose(input, nrows, w);
    var ii: nat := 0;
    while ii + 7 < nrows
      invariant ii % 8 == 0 && ii <= nrows
      invariant forall j: nat, i: nat :: j < w && i < ii ==> Right(out, spec, At(j, nrows, i))
    {
      BitrowStripe(input, out, elem, w, ii);
      ii := ii + 8;
    }
    RightMatrix(out, spec, w, nrows);
    return size * elem;
  }

  // ---------- the way back: bits of each group of eight elements ----------

  /** The masks of one register of `width` bytes, each stored to the element its bits belong to. */
  method EightMasks(input: seq<byte>, out: array<byte>, elem: nat, ghost w: nat, ghost c: nat, ii: nat, jj: nat, width: nat)
    requires |input| == out.Length == 8 * elem * w && c < w && ii == c * (8 * elem)
    requires (width == 16 && elem % 2 == 0) || width == 32
    requires jj % 16 == 0 && jj + width <= 8 * elem
    modifies out
    ensures forall p: nat :: old(Right(out, ShuffleEight(input, elem, w), p)) ==> Right(out, ShuffleEight(input, elem, w), p)
    ensures forall k: nat, l: nat :: k < 8 && jj / 8 <= l < (jj + width) / 8 ==> Right(out, ShuffleEight(input, elem, w), At(At(c, 8, k), elem, l))
  {
    hide ShuffleEight, Right, At, MoveMask, ShiftLanes, ShiftedBy;
    ghost var spec := ShuffleEight(input, elem, w);
    ghost var j, groups := jj / 8, width / 8;
    GroupEnd(elem, w, c);
    var reg := input[ii + jj..ii + jj + width];
    ghost var was := reg;
    NotShifted(reg);
    for kk := 0 to 8
      invariant |reg| == width && ShiftedBy(reg, was, kk)
      invariant forall p: nat :: old(Right(out, spec, p)) ==> Right(out, spec, p)
      invariant forall k: nat, l: nat :: 8 - kk <= k < 8 && j <= l < j + groups ==> Right(out, spec, At(At(c, 8, k), elem, l))
    {
      EvenIndex(elem, c, jj, kk);
      StoreMask(input, out, elem, w, c, ii, jj, width, kk, reg, was, j, groups, 7 - kk);
      ShiftOnce(reg, was, kk);
      reg := ShiftLanes(reg);
    }
  }

  /** One mask; a mask of two bytes is stored as an entry of an array of two byte numbers. */
  method StoreMask(input: seq<byte>, out: array<byte>, elem: nat, ghost w: nat, ghost c: nat, ii: nat, jj: nat, width: nat,
                   kk: nat, reg: seq<byte>, ghost was: seq<byte>, ghost j: nat, ghost groups: nat, ghost k: nat)
    requires |input| == out.Length == 8 * elem * w && c < w && ii == c * (8 * elem) && kk < 8 && k == 7 - kk
    requires jj == 8 * j && width == 8 * groups && 0 < groups && j + groups <= elem && ii + jj + width <= |input|
    requires width == 16 ==> (ii + jj / 8 + (7 - kk) * elem) % 2 == 0
    requires was == input[ii + jj..ii + jj + width] && |reg| == width && ShiftedBy(reg, was, kk)
    modifies out
    ensures forall p: nat :: old(Right(out, ShuffleEight(input, elem, w), p)) ==> Right(out, ShuffleEight(input, elem, w), p)
    ensures forall l: nat :: j <= l < j + groups ==> Right(out, ShuffleEight(input, elem, w), At(At(c, 8, k), elem, l))
  {
    hide *;
    ghost var spec := ShuffleEight(input, elem, w);
    var bt := MoveMask(reg);
    var ind := ii + jj / 8 + (7 - kk) * elem;
    assert jj / 8 == j;
    MaskElement(input, elem, w, c, j, groups, kk, reg, was, ind);
    Store(out, spec, if width == 16 then 2 * (ind / 2) else ind, bt);
    RightElement(out, spec, elem, c, j, groups, k, ind);
  }

  lemma GroupEnd(elem: nat, w: nat, c: nat)
    requires c < w
    ensures c * (8 * elem) + 8 * elem <= 8 * elem * w
  {
    MulMonotone(c + 1, w, 8 * elem);
  }

  lemma EvenIndex(elem: nat, c: nat, jj: nat, kk: nat)
    requires kk < 8
    ensures elem % 2 == 0 && jj % 16 == 0 ==> (c * (8 * elem) + jj / 8 + (7 - kk) * elem) % 2 == 0
  {
    if elem % 2 == 0 && jj % 16 == 0 {
      var h := elem / 2;
      assert elem == 2 * h;
      assert c * (8 * elem) == 2 * (c * (8 * h));
      assert (7 - kk) * elem == 2 * ((7 - kk) * h);
      assert jj / 8 == 2 * (jj / 16);
    }
  }

  lemma MaskIndex(elem: nat, c: nat, j: nat, k: nat, g: nat)
    ensures At(At(c, 8, k), elem, j + g) == c * (8 * elem) + j + k * elem + g
    ensures 8 * At(c, elem, j + g) == c * (8 * elem) + 8 * j + 8 * g
  {
    assert (c * 8 + k) * elem == c * (8 * elem) + k * elem;
    assert 8 * (c * elem) == c * (8 * elem);
  }

  lemma MaskElement(input: seq<byte>, elem: nat, w: nat, c: nat, j: nat, groups: nat, kk: nat, reg: seq<byte>, was: seq<byte>, ind: nat)
    requires |input| == 8 * elem * w && c < w && kk < 8 && 0 < groups && j + groups <= elem
    requires ind == c * (8 * elem) + j + (7 - kk) * elem
    requires var x := c * (8 * elem) + 8 * j; x + 8 * groups <= |input| && was == input[x..x + 8 * groups]
    requires |reg| == 8 * groups && ShiftedBy(reg, was, kk)
    ensures ind + groups <= |input|
    ensures forall g :: 0 <= g < groups ==> MoveMask(reg)[g] == ShuffleEight(input, elem, w)[ind + g]
  {
    hide *;
    forall g | 0 <= g < groups
      ensures ind + g < |input| && MoveMask(reg)[g] == ShuffleEight(input, elem, w)[ind + g]
    {
      MaskElementByte(input, elem, w, c, j, groups, kk, reg, was, ind, g);
    }
    MaskElementByte(input, elem, w, c, j, groups, kk, reg, was, ind, groups - 1);
  }

  lemma MaskElementByte(input: seq<byte>, elem: nat, w: nat, c: nat, j: nat, groups: nat, kk: nat, reg: seq<byte>, was: seq<byte>, ind: nat, g: nat)
    requires |input| == 8 * elem * w && c < w && kk < 8 && g < groups && j + groups <= elem
    requires ind == c * (8 * elem) + j + (7 - kk) * elem
    requires var x := c * (8 * elem) + 8 * j; x + 8 * groups <= |input| && was == input[x..x + 8 * groups]
    requires |reg| == 8 * groups && ShiftedBy(reg, was, kk)
    ensures ind + g < |input| && g < |MoveMask(reg)| && MoveMask(reg)[g] == ShuffleEight(input, elem, w)[ind + g]
  {
    hide *;
    var (x, r) := (c * (8 * elem) + 8 * j, At(c, elem, j + g));
    ElementColumn(input, elem, w, c, j + g, 7 - kk, j, g, ind, x);
    MaskOfRegister(input, x, groups, g, r, kk, reg, was);
  }

  /** A byte of the mask is a column of a word of the input. */
  lemma MaskOfRegister(input: seq<byte>, x: nat, groups: nat, g: nat, r: nat, kk: nat, reg: seq<byte>, was: seq<byte>)
    requires x + 8 * groups <= |input| && g < groups && 8 * r == x + 8 * g && was == input[x..x + 8 * groups]
    requires |reg| == 8 * groups && kk < 8 && ShiftedBy(reg, was, kk)
    ensures g < |MoveMask(reg)| && MoveMask(reg)[g] == Column(Word(input, r), 7 - kk)
  {
    hide *;
    MaskIsColumn(reg, was, kk, g);
    WordOfRegister(input, x, groups, g, r, was);
  }

  lemma ElementColumn(input: seq<byte>, elem: nat, w: nat, c: nat, l: nat, k: nat, j: nat, g: nat, ind: nat, x: nat)
    requires |input| == 8 * elem * w && c < w && k < 8 && l == j + g < elem && ind == c * (8 * elem) + j + k * elem
    requires x == c * (8 * elem) + 8 * j
    ensures ind + g < |input| && 8 * At(c, elem, l) + 8 <= |input| && 8 * At(c, elem, l) == x + 8 * g
    ensures ShuffleEight(input, elem, w)[ind + g] == Column(Word(input, At(c, elem, l)), k)
  {
    hide *;
    ShuffleEightAt(input, elem, w, c, k, l);
    MaskIndex(elem, c, j, k, g);
  }

  lemma RightElement(out: array<byte>, spec: seq<byte>, elem: nat, c: nat, j: nat, groups: nat, k: nat, ind: nat)
    requires ind == c * (8 * elem) + j + k * elem
    requires forall p: nat :: ind <= p < ind + groups ==> Right(out, spec, p)
    ensures forall l: nat :: j <= l < j + groups ==> Right(out, spec, At(At(c, 8, k), elem, l))
  {
    hide Right, At;
    forall l: nat | j <= l < j + groups
      ensures Right(out, spec, At(At(c, 8, k), elem, l))
    {
      MaskIndex(elem, c, j, k, l - j);
    }
  }

  /** One group of eight elements. */
  method ShuffleGroup(input: seq<byte>, out: array<byte>, elem: nat, ghost w: nat, ghost c: nat, ii: nat)
    requires |input| == out.Length == 8 * elem * w && c < w && ii == c * (8 * elem) && elem % 2 == 0
    modifies out
    ensures forall p: nat :: old(Right(out, ShuffleEight(input, elem, w), p)) ==> Right(out, ShuffleEight(input, elem, w), p)
    ensures forall k: nat, l: nat :: k < 8 && l < elem ==> Right(out, ShuffleEight(input, elem, w), At(At(c, 8, k), elem, l))
  {
    hide ShuffleEight, Right, At;
    ghost var spec := ShuffleEight(input, elem, w);
    var jj: nat := 0;
    while jj + 15 < 8 * elem
      invariant jj % 16 == 0 && jj <= 8 * elem
      invariant forall p: nat :: old(Right(out, spec, p)) ==> Right(out, spec, p)
      invariant forall k: nat, l: nat :: k < 8 && l < jj / 8 ==> Right(out, spec, At(At(c, 8, k), elem, l))
    {
      EightMasks(input, out, elem, w, c, ii, jj, 16);
      jj := jj + 16;
    }
  }

  method ShuffleBitEightelemSse(input: seq<byte>, out: array<byte>, size: nat, elem: nat) returns (r: int)
    requires |input| == out.Length == size * elem
    modifies out
    ensures size % 8 != 0 ==> r == -80 && out[..] == old(out[..])
    ensures size % 8 == 0 ==>
      r == size * elem && |input| == 8 * elem * (size / 8) && out[..] == ShuffleEight(input, elem, size / 8)
  {
    hide ShuffleEight, Right, At;
    if size % 8 != 0 { return -80; }
    if elem % 2 != 0 {
      var _ := ShuffleBitEightelemScal(input, out, size, elem);
    } else {
      ShuffleGroups(input, out, size, elem);
    }
    return size * elem;
  }

  /** One less, as an unsigned 64 bit number: below 0 it wraps. */
  function OneLess(n: nat): nat {
    if n == 0 then 0xFFFF_FFFF_FFFF_FFFF else n - 1
  }

  method ShuffleGroups(input: seq<byte>, out: array<byte>, size: nat, elem: nat)
    requires |input| == out.Length == size * elem && elem % 2 == 0 && size % 8 == 0
    modifies out
    ensures |input| == 8 * elem * (size / 8) && out[..] == ShuffleEight(input, elem, size / 8)
  {
    hide ShuffleEight, Right, At;
    var nbyte := elem * size;
    ghost var w := size / 8;
    BlockBytes(size, elem);
    ghost var spec := ShuffleEight(input, elem, w);
    var ii: nat := 0;
    ghost var c: nat := 0;
    NoBytes(size, elem);
    while OneLess(ii + 8 * elem) < nbyte
      invariant c <= w && ii == c * (8 * elem)
      invariant forall d: nat, k: nat, l: nat :: d < c && k < 8 && l < elem ==> Right(out, spec, At(At(d, 8, k), elem, l))
      decreases nbyte - ii
    {
      GroupsLeft(elem, w, c);
      ShuffleGroup(input, out, elem, w, c, ii);
      ii, c := ii + 8 * elem, c + 1;
    }
    if elem > 0 { GroupsLeft(elem, w, c); }
    RightElements(out, spec, elem, w);
  }

  lemma NoBytes(size: nat, elem: nat)
    ensures elem == 0 ==> elem * size == 0
  {}

  method UntransBitElemSse(input: seq<byte>, out: array<byte>, size: nat, elem: nat) returns (r: int)
    requires |input| == out.Length == size * elem
    modifies out
    ensures size % 8 != 0 ==> r == -80 && out[..] == old(out[..])
    ensures size % 8 == 0 ==>
      r == size * elem && IsBlock(input, size / 8, elem) && out[..] == Unshuffled(input, size / 8, elem)
  {
    hide Transpose, ShuffleEight;
    if size % 8 != 0 { return -80; }
    BlockBytes(size, elem);
    var tmp := new byte[size * elem];
    r := TransByteBitrowSse(input, tmp, size, elem);
    r := ShuffleBitEightelemSse(tmp[..], out, size, elem);
  }
}
