/** Decoding undoes compressing. */
module Lz4RoundTrip {
  import opened Bytes
  import opened Lz4Format
  import opened Lz4Parsing
  import opened Lz4Encoder
  import opened Lz4Decoder

  lemma {:induction false} FitsMonotone(ss: seq<Sequence>, last: seq<byte>, op: nat, max: nat, max': nat)
    requires FitsFrom(ss, last, op, max) && max <= max'
    ensures FitsFrom(ss, last, op, max')
    decreases |ss|
  {
    if ss != [] { FitsMonotone(ss[1..], last, op + SequenceLength(ss[0]), max, max'); }
  }

  /** The reader recovers, from any compressed form and for any large enough buffer, a block that means the input. */
  lemma CompressedIsRead(enc: seq<byte>, source: seq<byte>, max: nat) returns (b: Block)
    requires IsCompressed(enc, source) && |source| <= max
    ensures ParseBlock(enc, max) == Some(b) && Resolvable(b.sequences) && Meaning(b) == source
  {
    b :| IsCompressedAs(enc, source, b);
    assert enc[0..] == enc;
    if max == 0 {
      assert b.sequences == [] && b.last == [];
      EmptyBlock(b.last);
    } else {
      FitsMonotone(b.sequences, b.last, 0, |source|, max);
      ParseComplete(enc, 0, 0, max, b.sequences, b.last, 0);
    }
  }

  lemma EmptyBlock(last: seq<byte>)
    requires last == []
    ensures Encode(Block([], last)) == [0]
  {
    assert Nibble(|last|) == 0;
  }

  /** A compressed form belongs to one input only. */
  lemma CompressedIsInjective(enc: seq<byte>, a: seq<byte>, b: seq<byte>)
    requires IsCompressed(enc, a) && IsCompressed(enc, b)
    ensures a == b
  {
    var max := |a| + |b| + 1;
    var x := CompressedIsRead(enc, a, max);
    var y := CompressedIsRead(enc, b, max);
  }

  lemma CompressedNotEmpty(enc: seq<byte>, source: seq<byte>)
    requires IsCompressed(enc, source)
    ensures 1 <= |enc| && (|enc| == 1 ==> enc[0] < 0xF0)
  {
    var b := CompressedIsRead(enc, source, |source| + 1);
    TooShort(enc, |source| + 1);
  }

  /** Input whose first length leaves it is malformed. */
  lemma TooShort(enc: seq<byte>, max: nat)
    requires 0 < max
    ensures enc == [] || (|enc| == 1 && enc[0] >= 0xF0) ==> ParseBlock(enc, max) == None
  {}

  /** Compress, then decode into a buffer at least as long as the input. */
  method RoundTrip(source: seq<byte>, max: nat) returns (r: int, back: array<byte>)
    requires |source| <= max && |source| <= LZ4_MAX_INPUT_SIZE
    ensures r == |source| <= back.Length && back[..r] == source
  {
    hide IsCompressed, Meaning, Resolvable;
    var comp := new byte[CompressBound(|source|)];
    var n := Compress(source, comp);
    back := new byte[max];
    var enc := comp[..n];
    CompressedNotEmpty(enc, source);
    ghost var b := CompressedIsRead(enc, source, max);
    r := DecompressSafe(enc, back, max);
  }

  // ---------- offset zero ----------

  lemma FoundOffset(src: seq<byte>, ip: nat, op: nat, max: nat)
    ensures var item := ReadItem(src, ip, op, max); item.Found? ==> item.s.offset <= op + |item.s.literals|
  {}

  predicate OffsetsPositive(ss: seq<Sequence>) {
    forall k :: 0 <= k < |ss| ==> 1 <= ss[k].offset
  }

  lemma {:induction false} ParsedFrom(src: seq<byte>, ip: nat, ss: seq<Sequence>, max: nat, b: Block)
    requires Parse(src, ip, SequencesLength(ss), max) == Some(b)
    ensures Resolvable(ss + b.sequences) <==> Resolvable(ss) && OffsetsPositive(b.sequences)
    decreases |src| - ip
  {
    hide ReadItem, SequenceLength, Resolvable, Output;
    var op := SequencesLength(ss);
    FoundOffset(src, ip, op, max);
    match ReadItem(src, ip, op, max)
    case Closing(last) =>
      assert ss + b.sequences == ss;
    case Found(s, next) =>
      var rest := Parse(src, next, op + SequenceLength(s), max).value;
      AppendSequence(ss, s);
      ParsedFrom(src, next, ss + [s], max, rest);
      assert b.sequences == [s] + rest.sequences;
      assert ss + b.sequences == ss + [s] + rest.sequences;
      PositiveMore(s, rest.sequences);
  }

  lemma PositiveMore(s: Sequence, rest: seq<Sequence>)
    ensures OffsetsPositive([s] + rest) <==> 1 <= s.offset && OffsetsPositive(rest)
  {
    var ss := [s] + rest;
    if OffsetsPositive(ss) {
      assert ss[0] == s;
      forall k | 0 <= k < |rest|
        ensures 1 <= rest[k].offset
      {
        assert ss[k + 1] == rest[k];
      }
    }
  }

  /**
   The decoder checks references against the start of the buffer only.  So an accepted input
   has a meaning exactly if no offset in it is zero; the format does not allow that offset.
   */
  lemma AcceptedHasMeaning(src: seq<byte>, max: nat)
    requires ParseBlock(src, max).Some?
    ensures var ss := ParseBlock(src, max).value.sequences; Resolvable(ss) <==> OffsetsPositive(ss)
  {
    if max > 0 {
      var b := ParseBlock(src, max).value;
      ParsedFrom(src, 0, [], max, b);
      assert [] + b.sequences == b.sequences;
    }
  }

  /** A block that starts with a reference to its own start, and has at least 8 literals behind it. */
  function ZeroOffsetBlock(length: MatchLength, last: seq<byte>): Block {
    Block([Sequence([], 0, length)], last)
  }

  /** Such a block has no meaning, but its encoding is accepted for every buffer that is large enough. */
  lemma ZeroOffsetIsAccepted(length: MatchLength, last: seq<byte>, max: nat)
    requires 8 <= |last| && length + |last| <= max
    ensures var b := ZeroOffsetBlock(length, last);
            && ParseBlock(Encode(b), max) == Some(b) && BlockLength(b) == length + |last|
            && !Resolvable(b.sequences) && 2 <= |Encode(b)|
  {
    hide Encode, Parse, Fits, Resolvable, SequencesLength;
    var b := ZeroOffsetBlock(length, last);
    NoMeaning(length, last);
    ZeroOffsetFits(length, last, max);
    ParseExactly(Encode(b), max, b);
  }

  lemma NoMeaning(length: MatchLength, last: seq<byte>)
    ensures var b := ZeroOffsetBlock(length, last); !Resolvable(b.sequences) && BlockLength(b) == length + |last|
  {
    var s := Sequence([], 0, length);
    assert [s] == [] + [s];
    AppendSequence([], s);
  }

  lemma ZeroOffsetFits(length: MatchLength, last: seq<byte>, max: nat)
    requires 8 <= |last| && length + |last| <= max
    ensures Fits(ZeroOffsetBlock(length, last), max) && Encode(ZeroOffsetBlock(length, last)) == Encode(ZeroOffsetBlock(length, last), 0) && |Encode(ZeroOffsetBlock(length, last))| > |last|
  {
    hide EncodeLast, EncodeSequences, LengthBytes;
    var (b, s) := (ZeroOffsetBlock(length, last), Sequence([], 0, length));
    assert b.sequences[1..] == [];
    assert FitsFrom([], last, length, max);
    assert SequenceFits(s, |EncodeSequences([])| + |EncodeLast(last)|, 0, max);
  }

  /** The decoder reports success on it. */
  method DecodeZeroOffset(length: MatchLength, last: seq<byte>, max: nat) returns (r: int)
    requires 8 <= |last| && length + |last| <= max
    ensures r == length + |last|
  {
    hide Encode, Resolvable, ParseBlock;
    ZeroOffsetIsAccepted(length, last, max);
    var dest := new byte[max];
    r := DecompressSafe(Encode(ZeroOffsetBlock(length, last)), dest, max);
  }
}
