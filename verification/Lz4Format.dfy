/**
 The LZ4 block format: a block is a list of sequences (literals, then a back reference)
 closed by a run of literals.  This module says what a block means, how it is laid out as
 bytes, and which byte strings a decoder has to accept.
 */
module Lz4Format {
  import opened Bytes

  const MINMATCH: nat := 4
  const COPYLENGTH: nat := 8
  const LASTLITERALS: nat := 5
  const MFLIMIT: nat := COPYLENGTH + MINMATCH
  const MAX_DISTANCE: nat := 0xFFFF
  const RUN_MASK: nat := 15
  const ML_MASK: nat := 15

  type Offset = n: nat | n <= MAX_DISTANCE
  type MatchLength = n: nat | MINMATCH <= n witness MINMATCH

  datatype Sequence = Sequence(literals: seq<byte>, offset: Offset, matchLength: MatchLength)

  datatype Block = Block(sequences: seq<Sequence>, last: seq<byte>)

  // ---------- meaning ----------

  /** The LZ77 copy, one byte at a time: each new byte is the one `offset` places back. */
  function RepeatCopy(out: seq<byte>, offset: nat, length: nat): (r: seq<byte>)
    requires 1 <= offset <= |out|
    ensures |r| == |out| + length
    decreases length
  {
    if length == 0 then out
    else RepeatCopy(out + [out[|out| - offset]], offset, length - 1)
  }

  function SequenceLength(s: Sequence): nat {
    |s.literals| + s.matchLength
  }

  function SequencesLength(ss: seq<Sequence>): nat {
    if ss == [] then 0 else SequencesLength(ss[..|ss| - 1]) + SequenceLength(ss[|ss| - 1])
  }

  /** Every back reference points at a byte that has been produced. */
  predicate Resolvable(ss: seq<Sequence>) {
    ss == [] ||
    (Resolvable(ss[..|ss| - 1]) &&
     var s := ss[|ss| - 1];
     1 <= s.offset <= SequencesLength(ss[..|ss| - 1]) + |s.literals|)
  }

  function Output(ss: seq<Sequence>): (r: seq<byte>)
    requires Resolvable(ss)
    ensures |r| == SequencesLength(ss)
  {
    if ss == [] then []
    else
      var s := ss[|ss| - 1];
      RepeatCopy(Output(ss[..|ss| - 1]) + s.literals, s.offset, s.matchLength)
  }

  function BlockLength(b: Block): nat {
    SequencesLength(b.sequences) + |b.last|
  }

  function Meaning(b: Block): (r: seq<byte>)
    requires Resolvable(b.sequences)
    ensures |r| == BlockLength(b)
  {
    Output(b.sequences) + b.last
  }

  // ---------- layout ----------

  /** A length continued over bytes of 255 and closed by a smaller one. */
  function ExtraLength(n: nat): (s: seq<byte>)
    ensures |s| == n / 255 + 1
  {
    if n < 255 then [n as byte] else [255] + ExtraLength(n - 255)
  }

  function Nibble(n: nat): (r: nat)
    ensures r <= 15
  {
    if n < 15 then n else 15
  }

  function LengthBytes(n: nat): (s: seq<byte>)
    ensures |s| == if n < 15 then 0 else (n - 15) / 255 + 1
  {
    if n < 15 then [] else ExtraLength(n - 15)
  }

  function Token(literalLength: nat, low: nat): (t: byte)
    requires low <= 15
    ensures t as nat / 16 == Nibble(literalLength) && t as nat % 16 == low
  {
    (16 * Nibble(literalLength) + low) as byte
  }

  function EncodeSequence(s: Sequence): (r: seq<byte>)
    ensures |r| >= 3
  {
    [Token(|s.literals|, Nibble(s.matchLength - MINMATCH))] + LengthBytes(|s.literals|) + s.literals
    + ToLE16(s.offset) + LengthBytes(s.matchLength - MINMATCH)
  }

  function EncodeSequences(ss: seq<Sequence>): seq<byte>
  {
    if ss == [] then [] else EncodeSequence(ss[0]) + EncodeSequences(ss[1..])
  }

  /** The closing literals; the low half of their token carries no meaning. */
  function EncodeLast(last: seq<byte>, low: nat := 0): (r: seq<byte>)
    requires low <= 15
    ensures |r| > |last|
  {
    [Token(|last|, low)] + LengthBytes(|last|) + last
  }

  function Encode(b: Block, low: nat := 0): seq<byte>
    requires low <= 15
  {
    EncodeSequences(b.sequences) + EncodeLast(b.last, low)
  }

  // ---------- what a decoder accepts ----------

  /** Sum of a continued length that starts at `ip`, and the place after it. */
  function ReadExtra(src: seq<byte>, ip: nat): (r: Option<(nat, nat)>)
    ensures r.Some? ==> ip < r.value.1 <= |src|
    decreases |src| - ip
  {
    if ip >= |src| then None
    else if src[ip] != 255 then Some((src[ip] as nat, ip + 1))
    else
      match ReadExtra(src, ip + 1)
      case None => None
      case Some((n, next)) => Some((255 + n, next))
  }

  function ReadLength(src: seq<byte>, nibble: nat, ip: nat): (r: Option<(nat, nat)>)
    requires ip <= |src|
    ensures r.Some? ==> ip <= r.value.1 <= |src|
  {
    if nibble != 15 then Some((nibble, ip))
    else
      match ReadExtra(src, ip)
      case None => None
      case Some((n, next)) => Some((15 + n, next))
  }

  /** What stands at `ip`: a sequence and the place after it, the closing literals, or neither. */
  datatype Item = Malformed | Closing(last: seq<byte>) | Found(s: Sequence, next: nat)

  /**
   Reading one item with `op` bytes already produced, under the end-of-block rules: a literal
   run that ends within MFLIMIT of the output limit or within 8 bytes of the input end has to
   be the closing one, and a match may not reach the last LASTLITERALS bytes.
   */
  function ReadItem(src: seq<byte>, ip: nat, op: nat, max: nat): (r: Item)
    ensures r.Found? ==> ip < r.next <= |src|
  {
    if ip >= |src| then Malformed
    else
      match ReadLength(src, src[ip] as nat / 16, ip + 1)
      case None => Malformed
      case Some((length, lp)) =>
        if op + length + MFLIMIT > max || lp + length + 2 + 1 + LASTLITERALS > |src| then
          if lp + length == |src| && op + length <= max then Closing(src[lp..]) else Malformed
        else
          ReadMatch(src, src[ip] as nat % 16, lp, lp + length, op + length, max)
  }

  /** The second half of an item: literals [lp, end) are known, `op` counts them. */
  function ReadMatch(src: seq<byte>, nibble: nat, lp: nat, end: nat, op: nat, max: nat): (r: Item)
    requires lp <= end <= |src| - (2 + 1 + LASTLITERALS)
    ensures r.Found? ==> end + 2 <= r.next <= |src|
  {
    var offset := FromLE16(src[end], src[end + 1]);
    if offset > op then Malformed
    else
      match ReadLength(src, nibble, end + 2)
      case None => Malformed
      case Some((extra, next)) =>
        if nibble == 15 && next + 4 > |src| then Malformed
        else if op + extra + MINMATCH + LASTLITERALS > max then Malformed
        else Found(Sequence(src[lp..end], offset, extra + MINMATCH), next)
  }

  function Prepend(ss: seq<Sequence>, b: Option<Block>): Option<Block> {
    if b.None? then None else Some(Block(ss + b.value.sequences, b.value.last))
  }

  function Parse(src: seq<byte>, ip: nat, op: nat, max: nat): Option<Block>
    decreases |src| - ip
  {
    match ReadItem(src, ip, op, max)
    case Malformed => None
    case Closing(last) => Some(Block([], last))
    case Found(s, next) => Prepend([s], Parse(src, next, op + SequenceLength(s), max))
  }

  /** The whole reading, with the special rule for an empty output buffer. */
  function ParseBlock(src: seq<byte>, max: nat): Option<Block> {
    if max == 0 then (if src == [0] then Some(Block([], [])) else None)
    else Parse(src, 0, 0, max)
  }

  // ---------- the same acceptance, stated on blocks ----------

  /** The end-of-block rules for one sequence, with `rest` bytes of the block after it. */
  predicate SequenceFits(s: Sequence, rest: nat, op: nat, max: nat) {
    && op + |s.literals| + MFLIMIT <= max
    && 2 + |LengthBytes(s.matchLength - MINMATCH)| + rest >= 2 + 1 + LASTLITERALS
    && s.offset <= op + |s.literals|
    && (s.matchLength - MINMATCH >= 15 ==> rest >= 4)
    && op + SequenceLength(s) + LASTLITERALS <= max
  }

  predicate FitsFrom(ss: seq<Sequence>, last: seq<byte>, op: nat, max: nat) {
    if ss == [] then op + |last| <= max
    else
      && SequenceFits(ss[0], |EncodeSequences(ss[1..])| + |EncodeLast(last)|, op, max)
      && FitsFrom(ss[1..], last, op + SequenceLength(ss[0]), max)
  }

  predicate Fits(b: Block, max: nat) {
    FitsFrom(b.sequences, b.last, 0, max)
  }
}
