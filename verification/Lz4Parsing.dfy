/** The reader of the block format accepts exactly the encodings of blocks that fit. */
module Lz4Parsing {
  import opened Bytes
  import opened Lz4Format
  import opened Sequences

  lemma AppendSequence(ss: seq<Sequence>, s: Sequence)
    ensures SequencesLength(ss + [s]) == SequencesLength(ss) + SequenceLength(s)
    ensures Resolvable(ss + [s]) <==> Resolvable(ss) && 1 <= s.offset <= SequencesLength(ss) + |s.literals|
    ensures Resolvable(ss + [s]) ==>
      Output(ss + [s]) == RepeatCopy(Output(ss) + s.literals, s.offset, s.matchLength)
  {
    assert (ss + [s])[..|ss|] == ss;
  }

  lemma {:induction false} ReadExtraOf(src: seq<byte>, ip: nat, n: nat)
    requires ip + |ExtraLength(n)| <= |src| && src[ip..ip + |ExtraLength(n)|] == ExtraLength(n)
    ensures ReadExtra(src, ip) == Some((n, ip + |ExtraLength(n)|))
    decreases n
  {
    var e := ExtraLength(n);
    assert src[ip] == src[ip..ip + |e|][0];
    if n >= 255 {
      var tail := ExtraLength(n - 255);
      assert src[ip + 1..ip + 1 + |tail|] == src[ip..ip + |e|][1..];
      ReadExtraOf(src, ip + 1, n - 255);
    }
  }

  lemma {:induction false} ReadExtraIs(src: seq<byte>, ip: nat)
    requires ReadExtra(src, ip).Some?
    ensures var (n, next) := ReadExtra(src, ip).value;
            next == ip + |ExtraLength(n)| && src[ip..next] == ExtraLength(n)
    decreases |src| - ip
  {
    var (n, next) := ReadExtra(src, ip).value;
    if src[ip] == 255 {
      ReadExtraIs(src, ip + 1);
      assert src[ip..next] == [255] + src[ip + 1..next];
    }
  }

  lemma ReadLengthOf(src: seq<byte>, ip: nat, n: nat)
    requires ip + |LengthBytes(n)| <= |src| && src[ip..ip + |LengthBytes(n)|] == LengthBytes(n)
    ensures ReadLength(src, Nibble(n), ip) == Some((n, ip + |LengthBytes(n)|))
  {
    if n >= 15 { ReadExtraOf(src, ip, n - 15); }
  }

  lemma ReadLengthIs(src: seq<byte>, nibble: nat, ip: nat)
    requires nibble <= 15 && ip <= |src| && ReadLength(src, nibble, ip).Some?
    ensures var (n, next) := ReadLength(src, nibble, ip).value;
            && nibble == Nibble(n)
            && next == ip + |LengthBytes(n)| && src[ip..next] == LengthBytes(n)
  {
    if nibble == 15 { ReadExtraIs(src, ip); }
  }

  /** Where the parts of an encoded sequence lie. */
  lemma SequenceParts(src: seq<byte>, ip: nat, s: Sequence)
    requires ip + |EncodeSequence(s)| <= |src| && src[ip..ip + |EncodeSequence(s)|] == EncodeSequence(s)
    ensures var lp := ip + 1 + |LengthBytes(|s.literals|)|;
            var end := lp + |s.literals|;
            var next := end + 2 + |LengthBytes(s.matchLength - MINMATCH)|;
            && next == ip + |EncodeSequence(s)|
            && src[ip] == Token(|s.literals|, Nibble(s.matchLength - MINMATCH))
            && src[ip + 1..lp] == LengthBytes(|s.literals|)
            && src[lp..end] == s.literals
            && FromLE16(src[end], src[end + 1]) == s.offset
            && src[end + 2..next] == LengthBytes(s.matchLength - MINMATCH)
  {
    hide LengthBytes, Nibble;
    var t := [Token(|s.literals|, Nibble(s.matchLength - MINMATCH))];
    var a, b, o := LengthBytes(|s.literals|), LengthBytes(s.matchLength - MINMATCH), ToLE16(s.offset);
    PartsAt(src, ip, t, a, s.literals, o, b);
    var end := ip + 1 + |a| + |s.literals|;
    assert src[ip] == src[ip..ip + 1][0];
    assert src[end] == src[end..end + 2][0];
    assert src[end + 1] == src[end..end + 2][1];
  }

  lemma LastParts(src: seq<byte>, ip: nat, last: seq<byte>, low: nat)
    requires low <= 15 && ip <= |src| && src[ip..] == EncodeLast(last, low)
    ensures var lp := ip + 1 + |LengthBytes(|last|)|;
            && lp + |last| == |src|
            && src[ip] == Token(|last|, low)
            && src[ip + 1..lp] == LengthBytes(|last|)
            && src[lp..] == last
  {
    hide LengthBytes, Nibble, Token;
    var t, a := [Token(|last|, low)], LengthBytes(|last|);
    assert src[ip..] == t + a + last + [] + [];
    assert src[ip..ip + 1 + |a| + |last|] == src[ip..];
    PartsAt(src, ip, t, a, last, [], []);
    assert src[ip] == src[ip..ip + 1][0];
  }

  lemma ReadItemLast(src: seq<byte>, ip: nat, op: nat, max: nat, last: seq<byte>, low: nat)
    requires low <= 15 && ip <= |src| && src[ip..] == EncodeLast(last, low) && op + |last| <= max
    ensures ReadItem(src, ip, op, max) == Closing(last)
  {
    LastParts(src, ip, last, low);
    ReadLengthOf(src, ip + 1, |last|);
  }

  lemma ReadMatchOf(src: seq<byte>, lp: nat, end: nat, op: nat, max: nat, s: Sequence, next: nat)
    requires lp <= end <= |src| - (2 + 1 + LASTLITERALS) && src[lp..end] == s.literals
    requires FromLE16(src[end], src[end + 1]) == s.offset <= op
    requires next == end + 2 + |LengthBytes(s.matchLength - MINMATCH)| <= |src|
    requires src[end + 2..next] == LengthBytes(s.matchLength - MINMATCH)
    requires s.matchLength - MINMATCH >= 15 ==> next + 4 <= |src|
    requires op + s.matchLength + LASTLITERALS <= max
    ensures ReadMatch(src, Nibble(s.matchLength - MINMATCH), lp, end, op, max) == Found(s, next)
  {
    hide ReadLength, LengthBytes;
    ReadLengthOf(src, end + 2, s.matchLength - MINMATCH);
  }

  lemma ReadItemOf(src: seq<byte>, ip: nat, op: nat, max: nat, s: Sequence, rest: seq<byte>)
    requires ip <= |src| && src[ip..] == EncodeSequence(s) + rest
    requires SequenceFits(s, |rest|, op, max)
    ensures ReadItem(src, ip, op, max) == Found(s, ip + |EncodeSequence(s)|)
    ensures ip + |EncodeSequence(s)| <= |src| && src[ip + |EncodeSequence(s)|..] == rest
  {
    hide ReadMatch, ReadLength, EncodeSequence, LengthBytes, Nibble, Token, FromLE16;
    Split(src, ip, EncodeSequence(s), rest);
    SequenceParts(src, ip, s);
    var lp := ip + 1 + |LengthBytes(|s.literals|)|;
    var end := lp + |s.literals|;
    ReadLengthOf(src, ip + 1, |s.literals|);
    ReadMatchOf(src, lp, end, op + |s.literals|, max, s, ip + |EncodeSequence(s)|);
  }

  /** Every encoding of a block that fits is read back as that block. */
  lemma {:induction false} ParseComplete(
    src: seq<byte>, ip: nat, op: nat, max: nat, ss: seq<Sequence>, last: seq<byte>, low: nat)
    requires low <= 15 && ip <= |src|
    requires src[ip..] == EncodeSequences(ss) + EncodeLast(last, low)
    requires FitsFrom(ss, last, op, max)
    ensures Parse(src, ip, op, max) == Some(Block(ss, last))
    decreases |ss|
  {
    hide ReadItem, EncodeSequence, SequenceFits, SequenceLength;
    if ss == [] {
      assert src[ip..] == EncodeLast(last, low);
      ReadItemLast(src, ip, op, max, last, low);
    } else {
      var s, rest := ss[0], EncodeSequences(ss[1..]) + EncodeLast(last, low);
      assert src[ip..] == EncodeSequence(s) + rest;
      assert |rest| == |EncodeSequences(ss[1..])| + |EncodeLast(last)|;
      ReadItemOf(src, ip, op, max, s, rest);
      ParseComplete(src, ip + |EncodeSequence(s)|, op + SequenceLength(s), max, ss[1..], last, low);
      assert [s] + ss[1..] == ss;
    }
  }

  lemma ReadItemIsClosing(src: seq<byte>, ip: nat, op: nat, max: nat) returns (low: nat)
    requires ReadItem(src, ip, op, max).Closing?
    ensures low <= 15 && ip <= |src|
    ensures var last := ReadItem(src, ip, op, max).last;
            op + |last| <= max && src[ip..] == EncodeLast(last, low)
  {
    low := src[ip] as nat % 16;
    ReadLengthIs(src, src[ip] as nat / 16, ip + 1);
    var (length, lp) := ReadLength(src, src[ip] as nat / 16, ip + 1).value;
    Pieces3(src, ip, ip + 1, lp);
    assert src[ip..ip + 1] == [Token(length, low)];
  }

  lemma ReadItemIsSequence(src: seq<byte>, ip: nat, op: nat, max: nat)
    requires ReadItem(src, ip, op, max).Found?
    ensures var Found(s, next) := ReadItem(src, ip, op, max);
            src[ip..] == EncodeSequence(s) + src[next..] && SequenceFits(s, |src| - next, op, max)
  {
    hide ReadMatch, ReadLength, LengthBytes, EncodeSequence;
    var Found(s, next) := ReadItem(src, ip, op, max);
    ReadLengthIs(src, src[ip] as nat / 16, ip + 1);
    var (length, lp) := ReadLength(src, src[ip] as nat / 16, ip + 1).value;
    var end := lp + length;
    ReadMatchIs(src, src[ip] as nat % 16, lp, end, op + length, max);
    assert src[ip] == Token(|s.literals|, Nibble(s.matchLength - MINMATCH));
    SequenceFromParts(src, ip, lp, end, next, s);
  }

  lemma ReadMatchIs(src: seq<byte>, nibble: nat, lp: nat, end: nat, op: nat, max: nat)
    requires nibble <= 15 && lp <= end <= |src| - (2 + 1 + LASTLITERALS)
    requires ReadMatch(src, nibble, lp, end, op, max).Found?
    ensures var Found(s, next) := ReadMatch(src, nibble, lp, end, op, max);
            && src[lp..end] == s.literals && FromLE16(src[end], src[end + 1]) == s.offset <= op
            && nibble == Nibble(s.matchLength - MINMATCH)
            && next == end + 2 + |LengthBytes(s.matchLength - MINMATCH)|
            && src[end + 2..next] == LengthBytes(s.matchLength - MINMATCH)
            && (nibble == 15 ==> next + 4 <= |src|)
            && op + s.matchLength + LASTLITERALS <= max
  {
    hide ReadLength, LengthBytes;
    ReadLengthIs(src, nibble, end + 2);
  }

  lemma SequenceFromParts(src: seq<byte>, ip: nat, lp: nat, end: nat, next: nat, s: Sequence)
    requires ip < lp <= end < end + 2 <= next <= |src|
    requires src[ip] == Token(|s.literals|, Nibble(s.matchLength - MINMATCH))
    requires src[ip + 1..lp] == LengthBytes(|s.literals|) && src[lp..end] == s.literals
    requires FromLE16(src[end], src[end + 1]) == s.offset
    requires src[end + 2..next] == LengthBytes(s.matchLength - MINMATCH)
    ensures src[ip..] == EncodeSequence(s) + src[next..]
  {
    Pieces6(src, ip, ip + 1, lp, end, end + 2, next);
    assert ToLE16(s.offset) == src[end..end + 2];
    assert src[ip..ip + 1] == [src[ip]];
  }

  /** Whatever is read is the encoding of a block that fits. */
  lemma {:induction false} ParseSound(src: seq<byte>, ip: nat, op: nat, max: nat) returns (low: nat)
    requires Parse(src, ip, op, max).Some?
    ensures low <= 15 && ip <= |src|
    ensures var b := Parse(src, ip, op, max).value;
            FitsFrom(b.sequences, b.last, op, max) && src[ip..] == Encode(b, low)
    decreases |src| - ip
  {
    hide ReadItem, EncodeSequence, EncodeLast, SequenceFits, SequenceLength;
    var b := Parse(src, ip, op, max).value;
    match ReadItem(src, ip, op, max)
    case Closing(last) =>
      low := ReadItemIsClosing(src, ip, op, max);
    case Found(s, next) =>
      ReadItemIsSequence(src, ip, op, max);
      low := ParseSound(src, next, op + SequenceLength(s), max);
      assert b.sequences[1..] == Parse(src, next, op + SequenceLength(s), max).value.sequences;
      EncodeSplit(s, b, low);
      assert |src[next..]| == |EncodeSequences(b.sequences[1..])| + |EncodeLast(b.last)|;
  }

  lemma EncodeSplit(s: Sequence, b: Block, low: nat)
    requires low <= 15 && b.sequences != [] && b.sequences[0] == s
    ensures Encode(b, low) == EncodeSequence(s) + Encode(Block(b.sequences[1..], b.last), low)
    ensures |Encode(Block(b.sequences[1..], b.last), low)| == |EncodeSequences(b.sequences[1..])| + |EncodeLast(b.last)|
  {
    var (x, y, z) := (EncodeSequence(s), EncodeSequences(b.sequences[1..]), EncodeLast(b.last, low));
    assert x + (y + z) == x + y + z;
  }

  /**
   The reader accepts a byte string, as the block `b`, exactly when it is an encoding of `b`
   (the low half of the last token being free) and `b` keeps the end-of-block rules.
   */
  lemma ParseExactly(src: seq<byte>, max: nat, b: Block)
    ensures Parse(src, 0, 0, max) == Some(b) <==> Fits(b, max) && exists low: nat :: low <= 15 && src == Encode(b, low)
  {
    assert src[0..] == src;
    if Parse(src, 0, 0, max) == Some(b) {
      var low := ParseSound(src, 0, 0, max);
    }
    if Fits(b, max) && exists low: nat :: low <= 15 && src == Encode(b, low) {
      var low: nat :| low <= 15 && src == Encode(b, low);
      ParseComplete(src, 0, 0, max, b.sequences, b.last, low);
    }
  }
}
