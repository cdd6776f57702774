/**
 What shuffling the bits of a block of elements means: the bits, seen as a matrix of one row an
 element, are transposed.  Unshuffling is the inverse.
 */
module BitTranspose {
  import opened Bytes
  import opened BitWords
  import opened Matrix

  /** A block of `8 * w` elements of `elem` bytes. */
  predicate IsBlock(s: seq<byte>, w: nat, elem: nat) {
    |s| == 8 * w * elem
  }

  lemma BlockSizes(w: nat, elem: nat)
    ensures 8 * w * elem == 8 * (elem * w) == 8 * elem * w == elem * (8 * w)
  {}

  /** Bytes of each rank together, then bits of each rank, then the rows in order of their rank. */
  function Shuffled(s: seq<byte>, w: nat, elem: nat): (r: seq<byte>)
    requires IsBlock(s, w, elem)
    ensures |r| == |s|
  {
    BlockSizes(w, elem);
    TransposeGroups(BitRows(Transpose(s, 8 * w, elem), elem * w), 8, elem, w)
  }

  function Unshuffled(s: seq<byte>, w: nat, elem: nat): (r: seq<byte>)
    requires IsBlock(s, w, elem)
    ensures |r| == |s|
  {
    BlockSizes(w, elem);
    ShuffleEight(Transpose(s, 8 * elem, w), elem, w)
  }

  lemma Bounds(w: nat, elem: nat, c: nat, j: nat, k: nat)
    requires c < w && j < elem && k < 8
    ensures At(At(j, 8, k), w, c) < 8 * w * elem && At(At(c, 8, k), elem, j) < 8 * w * elem
  {
    AtBound(j, elem, 8, k);
    AtBound(At(j, 8, k), 8 * elem, w, c);
    AtBound(c, w, 8, k);
    AtBound(At(c, 8, k), 8 * w, elem, j);
    BlockSizes(w, elem);
  }

  /** Bit `b` of byte `c` of row (j, k) is bit `k` of byte `j` of element 8 c + b. */
  lemma ShuffledBit(s: seq<byte>, w: nat, elem: nat, c: nat, b: nat, j: nat, k: nat)
    requires IsBlock(s, w, elem) && c < w && b < 8 && j < elem && k < 8
    ensures At(At(j, 8, k), w, c) < |s| && At(At(c, 8, b), elem, j) < |s|
    ensures Bit(Shuffled(s, w, elem)[At(At(j, 8, k), w, c)], b) == Bit(s[At(At(c, 8, b), elem, j)], k)
  {
    hide At, Bit, Transpose, BitRows, TransposeGroups;
    Bounds(w, elem, c, j, k);
    Bounds(w, elem, c, j, b);
    BlockSizes(w, elem);
    var bytes := Transpose(s, 8 * w, elem);
    var rows := BitRows(bytes, elem * w);
    TransposeGroupsAt(rows, 8, elem, w, k, j, c);
    // rows[At(At(k, elem, j), w, c)] is byte At(j, w, c) of row k
    AtAssoc(k, j, elem, w, c);
    AtBound(j, elem, w, c);
    BitRowsBit(bytes, elem * w, k, At(j, w, c), b);
    // bit b of it comes from byte At(At(j, w, c), 8, b), which is At(j, 8 w, At(c, 8, b))
    AtAssoc(j, c, w, 8, b);
    AtBound(c, w, 8, b);
    TransposeAt(s, 8 * w, elem, At(c, 8, b), j);
  }

  /** Bit `b` of byte `j` of element 8 c + k is bit `k` of byte `c` of row (j, b). */
  lemma UnshuffledBit(s: seq<byte>, w: nat, elem: nat, c: nat, b: nat, j: nat, k: nat)
    requires IsBlock(s, w, elem) && c < w && b < 8 && j < elem && k < 8
    ensures At(At(c, 8, k), elem, j) < |s| && At(At(j, 8, b), w, c) < |s|
    ensures Bit(Unshuffled(s, w, elem)[At(At(c, 8, k), elem, j)], b) == Bit(s[At(At(j, 8, b), w, c)], k)
  {
    hide At, Bit, Transpose, ShuffleEight, Column, Word;
    Bounds(w, elem, c, j, k);
    Bounds(w, elem, c, j, b);
    BlockSizes(w, elem);
    var columns := Transpose(s, 8 * elem, w);
    ShuffleEightAt(columns, elem, w, c, k, j);
    ColumnBit(Word(columns, At(c, elem, j)), k, b);
    WordByte(columns, At(c, elem, j), b);
    AtAssoc(c, j, elem, 8, b);
    AtBound(j, elem, 8, b);
    TransposeAt(s, 8 * elem, w, At(j, 8, b), c);
  }

  // ---------- the matrix of bits ----------

  /** Bit `n` of a string of bits packed into bytes from the lowest bit on. */
  predicate BitAt(s: seq<byte>, n: nat)
    requires n < 8 * |s|
  {
    Bit(s[n / 8], n % 8)
  }

  /**
   Shuffling transposes the matrix of `size` rows (one an element) of 8 * elem bits: bit
   (8 j + k) * size + i of the result is bit `k` of byte `j` of element `i`.
   */
  lemma ShuffledIsTransposed(s: seq<byte>, w: nat, elem: nat, i: nat, j: nat, k: nat)
    requires IsBlock(s, w, elem) && i < 8 * w && j < elem && k < 8
    ensures var n := (8 * j + k) * (8 * w) + i;
            && n < 8 * |s| && i * elem + j < |s|
            && (BitAt(Shuffled(s, w, elem), n) <==> Bit(s[i * elem + j], k))
  {
    hide Shuffled, Bit, At;
    var c, b := i / 8, i % 8;
    ShuffledBit(s, w, elem, c, b, j, k);
    BitIndex(w, elem, c, b, j, k);
  }

  /** Binary digit `n` of a string of bytes, the lowest of each byte first. */
  function DigitAt(s: seq<byte>, n: nat): nat
    requires n < 8 * |s|
  {
    s[n / 8] as nat / Weight(n % 8) % 2
  }

  /** The same in the numbers that the bytes are: digit (8 j + k) * size + i of the result is digit `k` of byte `j` of element `i`. */
  lemma ShuffledDigits(s: seq<byte>, w: nat, elem: nat, i: nat, j: nat, k: nat)
    requires IsBlock(s, w, elem) && i < 8 * w && j < elem && k < 8
    ensures var n := (8 * j + k) * (8 * w) + i;
            && n < 8 * |s| && i * elem + j < |s|
            && DigitAt(Shuffled(s, w, elem), n) == s[i * elem + j] as nat / Weight(k) % 2
  {
    hide Shuffled, Bit, Weight;
    ShuffledIsTransposed(s, w, elem, i, j, k);
    var n := (8 * j + k) * (8 * w) + i;
    DigitOfBit(Shuffled(s, w, elem), n);
    BitIsDigit(s[i * elem + j], k);
  }

  lemma DigitOfBit(s: seq<byte>, n: nat)
    requires n < 8 * |s|
    ensures BitAt(s, n) <==> DigitAt(s, n) == 1
  {
    hide Bit, Weight;
    BitIsDigit(s[n / 8], n % 8);
  }

  lemma BitIndex(w: nat, elem: nat, c: nat, b: nat, j: nat, k: nat)
    requires b < 8
    ensures var n := (8 * j + k) * (8 * w) + (8 * c + b); n / 8 == At(At(j, 8, k), w, c) && n % 8 == b
    ensures At(At(c, 8, b), elem, j) == (8 * c + b) * elem + j
  {
    assert (8 * j + k) * (8 * w) == 8 * ((8 * j + k) * w);
  }

  // ---------- inverses ----------

  /** Every place of a block is byte `j` of an element 8 c + k. */
  lemma PlaceOfByte(p: nat, w: nat, elem: nat) returns (c: nat, k: nat, j: nat)
    requires p < 8 * w * elem
    ensures c < w && k < 8 && j < elem && p == At(At(c, 8, k), elem, j)
  {
    var i;
    i, j := Decompose(p, 8 * w, elem);
    c, k := Decompose(i, w, 8);
  }

  /** Every place of a shuffled block is byte `c` of a row (j, k). */
  lemma PlaceOfRow(p: nat, w: nat, elem: nat) returns (c: nat, j: nat, k: nat)
    requires p < 8 * w * elem
    ensures c < w && k < 8 && j < elem && p == At(At(j, 8, k), w, c)
  {
    BlockSizes(w, elem);
    var r;
    r, c := Decompose(p, 8 * elem, w);
    j, k := Decompose(r, elem, 8);
  }

  /** Unshuffling undoes shuffling. */
  lemma UnshuffleShuffled(s: seq<byte>, w: nat, elem: nat)
    requires IsBlock(s, w, elem)
    ensures Unshuffled(Shuffled(s, w, elem), w, elem) == s
  {
    hide Shuffled, Unshuffled, At, Bit;
    var t := Shuffled(s, w, elem);
    var u := Unshuffled(t, w, elem);
    forall p | 0 <= p < |s|
      ensures u[p] == s[p]
    {
      var c, k, j := PlaceOfByte(p, w, elem);
      forall b: nat | b < 8
        ensures Bit(u[p], b) == Bit(s[p], b)
      {
        UnshuffledBit(t, w, elem, c, b, j, k);
        ShuffledBit(s, w, elem, c, k, j, b);
      }
      BitsDetermine(u[p], s[p]);
    }
  }

  /** Shuffling undoes unshuffling. */
  lemma ShuffleUnshuffled(s: seq<byte>, w: nat, elem: nat)
    requires IsBlock(s, w, elem)
    ensures Shuffled(Unshuffled(s, w, elem), w, elem) == s
  {
    hide Shuffled, Unshuffled, At, Bit;
    var u := Unshuffled(s, w, elem);
    var t := Shuffled(u, w, elem);
    forall p | 0 <= p < |s|
      ensures t[p] == s[p]
    {
      var c, j, k := PlaceOfRow(p, w, elem);
      forall b: nat | b < 8
        ensures Bit(t[p], b) == Bit(s[p], b)
      {
        ShuffledBit(u, w, elem, c, b, j, k);
        UnshuffledBit(s, w, elem, c, k, j, b);
      }
      BitsDetermine(t[p], s[p]);
    }
  }
}
