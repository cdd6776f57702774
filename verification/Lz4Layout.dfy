/** The bytes of the block format, one by one: where each number of a sequence stands and how it is written. */
module Lz4Layout {
  import opened Bytes
  import opened Lz4Format
  import opened Lz4Parsing
  import opened Lz4Encoder
  import opened Lz4Decoder

  /** How many bytes continue a length of `n` that has only 4 bits in the token. */
  function Continued(n: nat): nat {
    if n < 15 then 0 else (n - 15) / 255 + 1
  }

  /** A continued length is as many bytes of 255 as go into what is above 15, and then the rest. */
  lemma {:induction false} ExtraBytes(n: nat)
    ensures var e := ExtraLength(n);
            |e| == n / 255 + 1 && (forall i :: 0 <= i < n / 255 ==> e[i] == 255) && e[n / 255] as nat == n % 255
    decreases n
  {
    if n >= 255 {
      ExtraBytes(n - 255);
      assert n / 255 == (n - 255) / 255 + 1 && n % 255 == (n - 255) % 255;
    }
  }

  lemma LengthBytesAt(n: nat)
    ensures var e := LengthBytes(n);
            && |e| == Continued(n)
            && (n >= 15 ==> (forall i :: 0 <= i < (n - 15) / 255 ==> e[i] == 255) && e[(n - 15) / 255] as nat == (n - 15) % 255)
  {
    if n >= 15 { ExtraBytes(n - 15); }
  }

  /** The continuation of a length of `n` stands at `i`. */
  predicate ContinuedAt(e: seq<byte>, i: nat, n: nat) {
    n >= 15 ==>
      && i + Continued(n) <= |e|
      && (forall k :: i <= k < i + (n - 15) / 255 ==> e[k] == 255) && e[i + (n - 15) / 255] as nat == (n - 15) % 255
  }

  lemma Placed(front: seq<byte>, n: nat, rest: seq<byte>)
    ensures ContinuedAt(front + LengthBytes(n) + rest, |front|, n)
  {
    hide LengthBytes;
    LengthBytesAt(n);
    if n >= 15 {
      var (e, s) := (LengthBytes(n), front + LengthBytes(n) + rest);
      forall k | |front| <= k < |front| + (n - 15) / 255
        ensures s[k] == 255
      {
        assert s[k] == e[k - |front|];
      }
      assert s[|front| + (n - 15) / 255] == e[(n - 15) / 255];
    }
  }

  /**
   A sequence: the token with the number of literals above and the match length less 4 below,
   15 standing for more; the rest of the number of literals; the literals; the offset, its low
   byte first; the rest of the match length.
   */
  lemma SequenceLayout(s: Sequence)
    ensures var (e, n, m) := (EncodeSequence(s), |s.literals|, s.matchLength - 4);
            var p := 1 + Continued(n) + n;
            && |e| == p + 2 + Continued(m)
            && e[0] as nat == 16 * (if n < 15 then n else 15) + (if m < 15 then m else 15)
            && ContinuedAt(e, 1, n) && e[p - n..p] == s.literals
            && e[p] as nat == s.offset % 256 && e[p + 1] as nat == s.offset / 256
            && ContinuedAt(e, p + 2, m)
  {
    hide LengthBytes, ContinuedAt, ToLE16, FromLE16;
    var (e, n, m) := (EncodeSequence(s), |s.literals|, s.matchLength - 4);
    var (t, a, o, b) := ([Token(n, Nibble(m))], LengthBytes(n), ToLE16(s.offset), LengthBytes(m));
    LengthBytesAt(n);
    LengthBytesAt(m);
    Placed(t, n, s.literals + o + b);
    Placed(t + a + s.literals + o, m, []);
    assert e == t + a + s.literals + o + b;
    assert e == t + a + (s.literals + o + b) && e == t + a + s.literals + o + b + [];
    LowByteFirst(s.offset);
  }

  lemma LowByteFirst(n: nat)
    requires n < 0x1_0000
    ensures ToLE16(n)[0] as nat == n % 256 && ToLE16(n)[1] as nat == n / 256
  {}

  /** The closing literals: a token, the rest of their number, and the literals. */
  lemma LastLayout(last: seq<byte>, low: nat)
    requires low <= 15
    ensures var (e, n) := (EncodeLast(last, low), |last|);
            && |e| == 1 + Continued(n) + n && e[0] as nat == 16 * (if n < 15 then n else 15) + low
            && ContinuedAt(e, 1, n) && e[1 + Continued(n)..] == last
  {
    hide LengthBytes, ContinuedAt;
    var (e, n) := (EncodeLast(last, low), |last|);
    var (t, a) := ([Token(n, low)], LengthBytes(n));
    LengthBytesAt(n);
    Placed(t, n, last);
    assert e == t + a + last;
  }

  // ---------- decoding, on the bytes ----------

  /** A block of one sequence: one literal, and four more of it by a match one byte back. */
  function RunBlock(x: byte, last: seq<byte>): Block {
    Block([Sequence([x], 1, 4)], last)
  }

  lemma RunBlockBytes(x: byte, last: seq<byte>)
    ensures Encode(RunBlock(x, last)) == [0x10, x, 1, 0] + EncodeLast(last)
  {
    hide EncodeLast, LengthBytes, ToLE16, FromLE16;
    var s := Sequence([x], 1, 4);
    SequenceLayout(s);
    LengthBytesAt(1);
    LengthBytesAt(0);
    assert EncodeSequence(s) == [0x10, x, 1, 0];
    assert [s][1..] == [];
    assert EncodeSequences([s]) == EncodeSequence(s) + EncodeSequences([]);
  }

  lemma RunBlockFits(x: byte, last: seq<byte>, max: nat)
    requires 8 <= |last| && 5 + |last| <= max
    ensures Fits(RunBlock(x, last), max)
  {
    hide EncodeLast, EncodeSequences, LengthBytes;
    var (b, s) := (RunBlock(x, last), Sequence([x], 1, 4));
    assert b.sequences[1..] == [];
    assert FitsFrom([], last, 5, max);
    assert SequenceFits(s, |EncodeSequences([])| + |EncodeLast(last)|, 0, max);
  }

  lemma RunBlockMeans(x: byte, last: seq<byte>)
    ensures var b := RunBlock(x, last); Resolvable(b.sequences) && Meaning(b) == [x, x, x, x, x] + last
  {
    var s := Sequence([x], 1, 4);
    assert [s] == [] + [s];
    AppendSequence([], s);
    assert Output([]) + [x] == [x];
    assert RepeatCopy([x, x, x, x], 1, 1) == [x, x, x, x, x];
    assert RepeatCopy([x, x], 1, 3) == RepeatCopy([x, x, x], 1, 2) == RepeatCopy([x, x, x, x], 1, 1);
  }

  /** Its bytes, with 8 or more literals behind, decode to five of the literal and the rest. */
  method DecodeRun(x: byte, last: seq<byte>, max: nat) returns (r: int, dest: array<byte>)
    requires 8 <= |last| && 5 + |last| <= max
    ensures dest.Length == max && r == 5 + |last| && dest[..r] == [x, x, x, x, x] + last
  {
    hide Encode, EncodeLast, Resolvable, Meaning, Fits;
    RunBlockBytes(x, last);
    RunBlockFits(x, last, max);
    RunBlockMeans(x, last);
    dest := new byte[max];
    var source := [0x10, x, 1, 0] + EncodeLast(last);
    ParseExactly(source, max, RunBlock(x, last));
    assert Encode(RunBlock(x, last)) == Encode(RunBlock(x, last), 0);
    r := DecompressSafe(source, dest, max);
  }

  /** The size of the output buffer that is enough for `n` bytes, and the most that are taken. */
  lemma BoundNumbers(n: nat)
    ensures CompressBound(n) == if n <= 2113929216 then n + n / 255 + 16 else 0
  {}

  // ---------- the end of a block ----------

  /**
   The restrictions at the end of a block, for what the compressor puts out: the last 5 bytes
   at least are literals, and the last match starts at least 12 bytes before the end.
   */
  lemma EndOfBlock(enc: seq<byte>, source: seq<byte>, b: Block)
    requires IsCompressedAs(enc, source, b) && b.sequences != []
    ensures 5 <= |b.last|
    ensures b.sequences[|b.sequences| - 1].matchLength + |b.last| >= 12
  {
    hide Resolvable, Output, Encode, FitsFrom, SequencesLength;
    EndFrom(b.sequences, b.last, 0, |source|);
    assert |Meaning(b)| == BlockLength(b);
  }

  lemma {:induction false} EndFrom(ss: seq<Sequence>, last: seq<byte>, op: nat, max: nat)
    requires ss != [] && FitsFrom(ss, last, op, max)
    ensures var s := ss[|ss| - 1];
            op + SequencesLength(ss) + 5 <= max && op + SequencesLength(ss) - s.matchLength + 12 <= max
    decreases |ss|
  {
    hide EncodeSequences, EncodeLast, LengthBytes;
    if |ss| == 1 {
      assert ss[..0] == [];
    } else {
      EndFrom(ss[1..], last, op + SequenceLength(ss[0]), max);
      FrontLength(ss);
    }
  }

  lemma {:induction false} FrontLength(ss: seq<Sequence>)
    requires ss != []
    ensures SequencesLength(ss) == SequenceLength(ss[0]) + SequencesLength(ss[1..])
    decreases |ss|
  {
    if |ss| == 1 {
      assert ss[..0] == [];
    } else {
      var n := |ss| - 1;
      FrontLength(ss[..n]);
      assert ss[..n][1..] == ss[1..][..n - 1];
    }
  }
}
