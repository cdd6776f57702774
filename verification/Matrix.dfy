/** Row-major index arithmetic, and the byte and bit transpositions as functions on sequences. */
module Matrix {
  import opened Bytes
  import opened BitWords

  // ---------- indices ----------

  /** Place of column `col` of row `row` when rows are `width` wide. */
  function At(row: nat, width: nat, col: nat): nat {
    row * width + col
  }

  lemma AtBound(row: nat, rows: nat, width: nat, col: nat)
    requires row < rows && col < width
    ensures At(row, width, col) < rows * width
  {
    assert (row + 1) * width <= rows * width;
  }

  lemma AtSplit(row: nat, width: nat, col: nat)
    requires col < width
    ensures At(row, width, col) / width == row && At(row, width, col) % width == col
  {
    var p := row * width + col;
    assert p == p / width * width + p % width;
    DivModUnique(width, p / width, p % width, row, col);
  }

  lemma MulMonotone(a: nat, b: nat, width: nat)
    ensures a <= b ==> a * width <= b * width
  {}

  lemma DivModUnique(width: nat, q: nat, r: nat, q': nat, r': nat)
    requires r < width && r' < width && q * width + r == q' * width + r'
    ensures q == q' && r == r'
  {
    MulMonotone(q + 1, q', width);
    MulMonotone(q' + 1, q, width);
  }

  lemma AtAssoc(a: nat, b: nat, width: nat, unit: nat, c: nat)
    ensures At(At(a, width, b), unit, c) == At(a, width * unit, At(b, unit, c))
  {
    assert (a * width + b) * unit == a * (width * unit) + b * unit;
  }

  /** Every place has a row and a column. */
  lemma Decompose(p: nat, rows: nat, width: nat) returns (row: nat, col: nat)
    requires p < rows * width
    ensures row < rows && col < width && p == At(row, width, col)
  {
    assert 0 < width;
    row, col := p / width, p % width;
    assert p == row * width + col;
    MulMonotone(rows, row, width);
  }

  // ---------- transposition of bytes ----------

  function TransposedIndex(p: nat, lda: nat, ldb: nat): (q: nat)
    requires p < lda * ldb
    ensures q < lda * ldb
  {
    assert 0 < lda;
    assert p / lda < ldb by {
      assert p == p / lda * lda + p % lda;
      MulMonotone(ldb, p / lda, lda);
    }
    AtBound(p % lda, lda, ldb, p / lda);
    At(p % lda, ldb, p / lda)
  }

  /** The `lda` by `ldb` matrix `s`, transposed. */
  function Transpose(s: seq<byte>, lda: nat, ldb: nat): (r: seq<byte>)
    requires |s| == lda * ldb
    ensures |r| == |s|
  {
    seq(lda * ldb, p requires 0 <= p < lda * ldb => s[TransposedIndex(p, lda, ldb)])
  }

  lemma TransposedIndexAt(lda: nat, ldb: nat, i: nat, j: nat)
    requires i < lda && j < ldb
    ensures At(j, lda, i) < lda * ldb && TransposedIndex(At(j, lda, i), lda, ldb) == At(i, ldb, j)
  {
    AtBound(j, ldb, lda, i);
    AtSplit(j, lda, i);
  }

  lemma TransposeAt(s: seq<byte>, lda: nat, ldb: nat, i: nat, j: nat)
    requires |s| == lda * ldb && i < lda && j < ldb
    ensures At(j, lda, i) < |s| && At(i, ldb, j) < |s| && Transpose(s, lda, ldb)[At(j, lda, i)] == s[At(i, ldb, j)]
  {
    hide At;
    AtBound(i, lda, ldb, j);
    TransposedIndexAt(lda, ldb, i, j);
  }

  // ---------- transposition of groups of bytes ----------

  lemma GroupIndex(p: nat, groups: nat, unit: nat)
    requires p < groups * unit
    ensures 0 < unit && p / unit < groups
  {
    var row, col := Decompose(p, groups, unit);
    AtSplit(row, unit, col);
  }

  /** The `lda` by `ldb` matrix of groups of `unit` bytes, transposed. */
  function TransposeGroups(s: seq<byte>, lda: nat, ldb: nat, unit: nat): (r: seq<byte>)
    requires |s| == lda * ldb * unit
    ensures |r| == |s|
  {
    seq(lda * ldb * unit, p requires 0 <= p < lda * ldb * unit =>
      GroupIndex(p, lda * ldb, unit);
      AtBound(TransposedIndex(p / unit, lda, ldb), lda * ldb, unit, p % unit);
      s[At(TransposedIndex(p / unit, lda, ldb), unit, p % unit)])
  }

  lemma TransposeGroupsAt(s: seq<byte>, lda: nat, ldb: nat, unit: nat, i: nat, j: nat, c: nat)
    requires |s| == lda * ldb * unit && i < lda && j < ldb && c < unit
    ensures At(At(j, lda, i), unit, c) < |s| && At(At(i, ldb, j), unit, c) < |s|
    ensures TransposeGroups(s, lda, ldb, unit)[At(At(j, lda, i), unit, c)] == s[At(At(i, ldb, j), unit, c)]
  {
    hide At;
    TransposedIndexAt(lda, ldb, i, j);
    AtBound(i, lda, ldb, j);
    AtBound(At(j, lda, i), lda * ldb, unit, c);
    AtBound(At(i, ldb, j), lda * ldb, unit, c);
    AtSplit(At(j, lda, i), unit, c);
  }

  // ---------- transposition of bits ----------

  function Word(s: seq<byte>, r: nat): (w: seq<byte>)
    requires 8 * r + 8 <= |s|
    ensures |w| == 8
  {
    s[8 * r..8 * r + 8]
  }

  lemma WordByte(s: seq<byte>, r: nat, b: nat)
    requires 8 * r + 8 <= |s| && b < 8
    ensures At(r, 8, b) < |s| && Word(s, r)[b] == s[At(r, 8, b)]
  {}

  /** Eight rows of bits: bit `b` of place `r` in row `k` is bit `k` of byte 8 r + b. */
  function BitRows(s: seq<byte>, m: nat): (r: seq<byte>)
    requires |s| == 8 * m
    ensures |r| == |s|
  {
    seq(8 * m, p requires 0 <= p < 8 * m => GroupIndex(p, 8, m); Column(Word(s, p % m), p / m))
  }

  lemma BitRowsAt(s: seq<byte>, m: nat, k: nat, r: nat)
    requires |s| == 8 * m && k < 8 && r < m
    ensures At(k, m, r) < |s| && BitRows(s, m)[At(k, m, r)] == Column(Word(s, r), k)
  {
    AtBound(k, 8, m, r);
    AtSplit(k, m, r);
  }

  lemma BitRowsBit(s: seq<byte>, m: nat, k: nat, r: nat, b: nat)
    requires |s| == 8 * m && k < 8 && r < m && b < 8
    ensures At(k, m, r) < |s| && At(r, 8, b) < |s|
    ensures Bit(BitRows(s, m)[At(k, m, r)], b) == Bit(s[At(r, 8, b)], k)
  {
    hide At, Column, Bit, Word;
    BitRowsAt(s, m, k, r);
    ColumnBit(Word(s, r), k, b);
    WordByte(s, r, b);
  }

  lemma EightIndex(p: nat, blocks: nat, elem: nat)
    requires p < 8 * elem * blocks
    ensures 0 < elem && p / elem / 8 < blocks && At(p / elem / 8, elem, p % elem) < blocks * elem
  {
    assert 8 * elem * blocks == (8 * blocks) * elem;
    GroupIndex(p, 8 * blocks, elem);
    AtBound(p / elem / 8, blocks, elem, p % elem);
  }

  /**
   In each group of eight elements, given as `elem` words, byte `j` of element `k` collects the
   bits `k` of word `j`.
   */
  function ShuffleEight(s: seq<byte>, elem: nat, blocks: nat): (r: seq<byte>)
    requires |s| == 8 * elem * blocks
    ensures |r| == |s|
  {
    seq(8 * elem * blocks, p requires 0 <= p < 8 * elem * blocks =>
      EightIndex(p, blocks, elem);
      assert 8 * (blocks * elem) == 8 * elem * blocks;
      Column(Word(s, At(p / elem / 8, elem, p % elem)), p / elem % 8))
  }

  lemma ShuffleEightAt(s: seq<byte>, elem: nat, blocks: nat, c: nat, k: nat, j: nat)
    requires |s| == 8 * elem * blocks && c < blocks && k < 8 && j < elem
    ensures At(At(c, 8, k), elem, j) < |s| && 8 * At(c, elem, j) + 8 <= |s|
    ensures ShuffleEight(s, elem, blocks)[At(At(c, 8, k), elem, j)] == Column(Word(s, At(c, elem, j)), k)
  {
    assert 8 * elem * blocks == 8 * blocks * elem == 8 * (blocks * elem);
    AtBound(c, blocks, 8, k);
    AtBound(At(c, 8, k), 8 * blocks, elem, j);
    AtBound(c, blocks, elem, j);
    AtSplit(At(c, 8, k), elem, j);
    AtSplit(c, 8, k);
  }
}
