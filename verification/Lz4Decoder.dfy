/** The safe decoder: it writes into a bounded buffer and decides every malformed input. */
module Lz4Decoder {
  import opened Bytes
  import opened Lz4Format
  import opened Lz4Copy
  import opened Lz4Parsing

  function Bump(r: Option<(nat, nat)>, acc: nat): Option<(nat, nat)> {
    match r
    case None => None
    case Some((n, next)) => Some((acc + n, next))
  }

  /**
   The literal length.  The loop also stops 15 bytes before the input end; it then reports a
   run that leaves the input, and so does every reading of the length.
   */
  method ReadLiteralLength(source: seq<byte>, nibble: nat, start: nat) returns (length: nat, ip: nat)
    requires start <= |source| && (nibble == 15 ==> start < |source|)
    ensures start <= ip <= |source|
    ensures || ReadLength(source, nibble, start) == Some((length, ip))
            || (ip + length > |source| &&
                match ReadLength(source, nibble, start)
                case None => true
                case Some((n, next)) => next + n > |source|)
  {
    length, ip := nibble, start;
    if nibble == 15 {
      ghost var acc := source[ip] as nat;
      var s := source[ip];
      ip := ip + 1;
      length := length + s as nat;
      while ip + RUN_MASK < |source| && s == 255
        invariant start < ip <= |source| && length == 15 + acc
        invariant s == 255 ==> acc >= 255 && ReadExtra(source, start) == Bump(ReadExtra(source, ip), acc)
        invariant s != 255 ==> ReadExtra(source, start) == Some((acc, ip))
        decreases |source| - ip
      {
        s := source[ip];
        ip := ip + 1;
        length := length + s as nat;
        acc := acc + s as nat;
      }
    }
  }

  /** The match length without MINMATCH; refused when it comes within LASTLITERALS - 1 of the end. */
  method ReadMatchLength(source: seq<byte>, nibble: nat, start: nat) returns (ok: bool, length: nat, ip: nat)
    requires start <= |source|
    ensures start <= ip <= |source|
    ensures match ReadLength(source, nibble, start)
            case None => !ok
            case Some((n, next)) => ok == !(nibble == 15 && next + 4 > |source|) && (ok ==> length == n && ip == next)
  {
    ok, length, ip := true, nibble, start;
    if nibble == 15 {
      ghost var acc: nat := 0;
      var s: byte := 255;
      while s == 255
        invariant start <= ip <= |source| && length == 15 + acc
        invariant s == 255 ==> ReadExtra(source, start) == Bump(ReadExtra(source, ip), acc)
        invariant s != 255 ==> ReadExtra(source, start) == Some((acc, ip)) && ip + 4 <= |source|
        decreases s == 255, |source| - ip
      {
        if ip + LASTLITERALS > |source| {
          return false, length, ip;
        }
        s := source[ip];
        ip := ip + 1;
        length := length + s as nat;
        acc := acc + s as nat;
      }
    }
  }

  datatype Status = Refused | Done | Continue

  /** The first half of one turn of the main loop: token, literals. */
  method Literals(source: seq<byte>, dest: array<byte>, start: nat, op: nat, oend: nat)
    returns (status: Status, ip: nat, cpy: nat)
    requires start < |source| && (source[start] as nat / 16 == 15 ==> start + 1 < |source|)
    requires op <= oend <= dest.Length
    modifies dest
    ensures dest[..op] == old(dest[..op]) && dest[oend..] == old(dest[oend..])
    ensures ip <= |source|
    ensures status.Continue? ==>
      && op <= cpy && cpy + MFLIMIT <= oend && start < ip && ip + 2 + 1 + LASTLITERALS <= |source| && cpy - op <= ip - start
      && dest[..cpy] == old(dest[..op]) + source[ip - (cpy - op)..ip]
      && ReadItem(source, start, op, oend) == ReadMatch(source, source[start] as nat % 16, ip - (cpy - op), ip, cpy, oend)
    ensures status.Done? ==>
      && op <= cpy <= oend && start < |source| - (cpy - op)
      && ReadItem(source, start, op, oend) == Closing(source[|source| - (cpy - op)..])
      && dest[..cpy] == old(dest[..op]) + source[|source| - (cpy - op)..]
    ensures status.Refused? ==> ReadItem(source, start, op, oend) == Malformed
  {
    hide ReadLength, ReadMatch;
    var token := source[start] as nat;
    var length;
    length, ip := ReadLiteralLength(source, token / 16, start + 1);
    cpy := op + length;
    if cpy + MFLIMIT > oend || ip + length + 2 + 1 + LASTLITERALS > |source| {
      if ip + length != |source| || cpy > oend {
        return Refused, ip, cpy;
      }
      forall k | 0 <= k < length { dest[op + k] := source[ip + k]; }
      assert dest[..cpy] == old(dest[..op]) + source[ip..];
      return Done, ip, cpy;
    }
    ghost var before := dest[..op];
    WildCopyIn(dest, op, source, ip, cpy);
    assert dest[..cpy] == dest[..op] + dest[op..cpy];
    assert dest[..op] == before;
    ip := ip + length;
    return Continue, ip, cpy;
  }

  /** The second half: offset, match length, the copy. */
  method Match(source: seq<byte>, dest: array<byte>, nibble: nat, ghost lp: nat, start: nat, op: nat, oend: nat)
    returns (status: Status, ip: nat, cpy: nat)
    requires lp <= start && start + 2 + 1 + LASTLITERALS <= |source|
    requires op + MFLIMIT <= oend <= dest.Length
    modifies dest
    ensures dest[..op] == old(dest[..op]) && dest[oend..] == old(dest[oend..])
    ensures !status.Done?
    ensures ip <= |source|
    ensures var item := ReadMatch(source, nibble, lp, start, op, oend);
            && (status.Refused? ==> item == Malformed)
            && (status.Continue? ==>
                  && item.Found? && item.next == ip && start + 2 <= ip && ip + 4 <= |source|
                  && cpy == op + item.s.matchLength && cpy + LASTLITERALS <= oend
                  && (1 <= item.s.offset <= op ==>
                        dest[..cpy] == RepeatCopy(old(dest[..op]), item.s.offset, item.s.matchLength)))
  {
    var offset := FromLE16(source[start], source[start + 1]);
    ip, cpy := start + 2, op;
    if offset > op {
      return Refused, ip, cpy;
    }
    var ok, extra;
    ok, extra, ip := ReadMatchLength(source, nibble, start + 2);
    if !ok {
      return Refused, ip, cpy;
    }
    var length := extra + MINMATCH;
    ok := CopyMatch(dest, op, offset, length, oend);
    if !ok {
      return Refused, ip, cpy;
    }
    return Continue, ip, op + length;
  }

  // ---------- the main loop ----------

  lemma PrependNothing(b: Option<Block>)
    ensures Prepend([], b) == b
  {
    if b.Some? { assert [] + b.value.sequences == b.value.sequences; }
  }

  lemma PrependTwice(ss: seq<Sequence>, s: Sequence, b: Option<Block>)
    ensures Prepend(ss, Prepend([s], b)) == Prepend(ss + [s], b)
  {
    if b.Some? { assert ss + ([s] + b.value.sequences) == ss + [s] + b.value.sequences; }
  }

  /**
   Decoding succeeds exactly on the byte strings that the format reader accepts for this
   buffer size; it then returns the length of the block and, if every back reference goes to
   a produced byte, leaves the block's meaning in `dest`.  Nothing at or after `outputSize`
   is written.  An empty input, or a single byte of 0xF0 or more, would be read beyond its end.
   */
  method DecompressSafe(source: seq<byte>, dest: array<byte>, outputSize: nat) returns (r: int)
    requires outputSize <= dest.Length
    requires outputSize == 0 || 2 <= |source| || (|source| == 1 && source[0] < 0xF0)
    modifies dest
    ensures dest[outputSize..] == old(dest[outputSize..])
    ensures r >= 0 <==> ParseBlock(source, outputSize).Some?
    ensures r >= 0 ==>
      var b := ParseBlock(source, outputSize).value;
      r == BlockLength(b) <= outputSize && (Resolvable(b.sequences) ==> dest[..r] == Meaning(b))
  {
    hide ReadItem, RepeatCopy, SequenceLength;
    if outputSize == 0 {
      if |source| == 1 && source[0] == 0 { return 0; }
      return -1;
    }
    var ip: nat, op: nat, oend := 0, 0, outputSize;
    ghost var ss: seq<Sequence> := [];
    PrependNothing(Parse(source, 0, 0, oend));
    while true
      invariant op <= oend && ip < |source| && (source[ip] as nat / 16 == 15 ==> ip + 1 < |source|)
      invariant dest[oend..] == old(dest[oend..])
      invariant Parse(source, 0, 0, oend) == Prepend(ss, Parse(source, ip, op, oend))
      invariant op == SequencesLength(ss)
      invariant Resolvable(ss) ==> dest[..op] == Output(ss)
      decreases |source| - ip
    {
      var status, ip', op';
      ghost var item;
      status, ip', op', item := Turn(source, dest, ip, op, oend);
      if status.Refused? { return -(ip' as int) - 1; }
      if status.Done? {
        assert Parse(source, 0, 0, oend) == Some(Block(ss + [], item.last));
        assert ss + [] == ss;
        return op';
      }
      PrependTwice(ss, item.s, Parse(source, ip', op', oend));
      AppendSequence(ss, item.s);
      ss := ss + [item.s];
      ip, op := ip', op';
    }
  }

  /** One turn of the main loop. */
  method Turn(source: seq<byte>, dest: array<byte>, ip: nat, op: nat, oend: nat)
    returns (status: Status, ip': nat, op': nat, ghost item: Item)
    requires ip < |source| && (source[ip] as nat / 16 == 15 ==> ip + 1 < |source|)
    requires op <= oend <= dest.Length
    modifies dest
    ensures dest[oend..] == old(dest[oend..])
    ensures item == ReadItem(source, ip, op, oend)
    ensures match status
            case Refused => item == Malformed
            case Done => item.Closing? && op' == op + |item.last| <= oend && dest[..op'] == old(dest[..op]) + item.last
            case Continue =>
              && item.Found? && item.next == ip' && ip < ip' && ip' + 4 <= |source|
              && op' == op + SequenceLength(item.s) <= oend
              && (1 <= item.s.offset <= op + |item.s.literals| ==>
                    dest[..op'] == RepeatCopy(old(dest[..op]) + item.s.literals, item.s.offset, item.s.matchLength))
  {
    hide RepeatCopy;
    item := ReadItem(source, ip, op, oend);
    status, ip', op' := Literals(source, dest, ip, op, oend);
    if status.Continue? {
      ghost var lp := ip' - (op' - op);
      status, ip', op' := Match(source, dest, source[ip] as nat % 16, lp, ip', op', oend);
    }
  }
}
