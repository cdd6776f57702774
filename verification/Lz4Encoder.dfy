/** The block compressor: what it writes is a block that means its input and keeps the end-of-block rules. */
module Lz4Encoder {
  import opened Bytes
  import opened Lz4Format
  import opened Lz4Greedy
  import opened Lz4Matches
  import opened Lz4Parsing
  import opened Lz4Copy

  const LZ4_MAX_INPUT_SIZE: nat := 0x7E00_0000
  const LZ4_minLength: nat := MFLIMIT + 1

  function CompressBound(n: nat): nat {
    if n > LZ4_MAX_INPUT_SIZE then 0 else n + n / 255 + 16
  }

  // ---------- what the compressor has achieved so far ----------

  /** Every match starts MFLIMIT before the end of the `n` input bytes and leaves LASTLITERALS. */
  predicate Disciplined(ss: seq<Sequence>, n: nat) {
    ss == [] ||
    (Disciplined(ss[..|ss| - 1], n) &&
     SequencesLength(ss[..|ss| - 1]) + |ss[|ss| - 1].literals| + MFLIMIT <= n &&
     SequencesLength(ss) + LASTLITERALS <= n)
  }

  /** The sequences `ss` account for the input before `anchor`. */
  ghost predicate Covers(ss: seq<Sequence>, source: seq<byte>, anchor: nat) {
    && anchor == SequencesLength(ss) <= |source|
    && Disciplined(ss, |source|)
    && Resolvable(ss) && Output(ss) == source[..anchor]
  }

  lemma CoversNothing(source: seq<byte>)
    ensures Covers([], source, 0)
  {}

  /** A genuine match extends what is covered. */
  lemma CoversMore(ss: seq<Sequence>, source: seq<byte>, anchor: nat, ip: nat, ref: nat, length: nat)
    requires Covers(ss, source, anchor) && anchor <= ip && ref < ip <= ref + MAX_DISTANCE && MINMATCH <= length
    requires ip + MFLIMIT <= |source| && ip + length + LASTLITERALS <= |source|
    requires Agree(source, ip, ref, length)
    ensures Covers(ss + [Sequence(source[anchor..ip], ip - ref, length)], source, ip + length)
  {
    hide RepeatCopy, Resolvable, Output, SequencesLength, Agree, Disciplined, Repeats;
    var s := Sequence(source[anchor..ip], ip - ref, length);
    AppendSequence(ss, s);
    var r := source[..ip + length];
    assert Output(ss) + s.literals == source[..ip] == r[..ip];
    AgreeRepeats(source, ip, ref, length);
    RepeatsIsRepeatCopy(r, ip, ip - ref);
    DisciplinedMore(ss, s, |source|);
  }

  lemma AgreeRepeats(source: seq<byte>, ip: nat, ref: nat, length: nat)
    requires ref < ip && ip + length <= |source| && Agree(source, ip, ref, length)
    ensures Repeats(source[..ip + length], ip, ip - ref)
  {}

  lemma DisciplinedMore(ss: seq<Sequence>, s: Sequence, n: nat)
    requires Disciplined(ss, n) && SequencesLength(ss) + |s.literals| + MFLIMIT <= n
    requires SequencesLength(ss) + SequenceLength(s) + LASTLITERALS <= n
    ensures Disciplined(ss + [s], n)
  {
    assert (ss + [s])[..|ss|] == ss;
  }

  // ---------- sizes ----------

  lemma DivSum(a: nat, b: nat)
    ensures a / 255 + b / 255 <= (a + b) / 255
  {}

  /** A sequence is never longer than what it stands for, but for one byte in 255. */
  lemma SequenceSize(s: Sequence)
    ensures |EncodeSequence(s)| <= SequenceLength(s) + |s.literals| / 255
  {}

  lemma {:induction false} EncodeAppend(ss: seq<Sequence>, s: Sequence)
    ensures EncodeSequences(ss + [s]) == EncodeSequences(ss) + EncodeSequence(s)
  {
    hide EncodeSequence;
    if ss == [] {
      assert ss + [s] == [s];
    } else {
      EncodeAppend(ss[1..], s);
      assert (ss + [s])[1..] == ss[1..] + [s];
    }
  }

  /** All sequences together. */
  lemma {:induction false} SequencesSize(ss: seq<Sequence>)
    ensures |EncodeSequences(ss)| <= SequencesLength(ss) + SequencesLength(ss) / 255
    decreases |ss|
  {
    if ss != [] {
      var front, s := ss[..|ss| - 1], ss[|ss| - 1];
      SequencesSize(front);
      SequenceSize(s);
      EncodeAppend(front, s);
      assert front + [s] == ss;
      DivSum(SequencesLength(front), |s.literals|);
      DivSum(SequencesLength(front), SequenceLength(s));
    }
  }

  lemma RoomForLiterals(ss: seq<Sequence>, literals: nat, n: nat)
    requires SequencesLength(ss) + literals + MFLIMIT <= n
    ensures |EncodeSequences(ss)| + 1 + |LengthBytes(literals)| + literals + COPYLENGTH <= n + n / 255 + 16
  {
    SequencesSize(ss);
    DivSum(SequencesLength(ss), literals);
  }

  lemma RoomForSequence(ss: seq<Sequence>, s: Sequence, n: nat)
    requires SequencesLength(ss + [s]) <= n
    ensures |EncodeSequences(ss + [s])| <= n + n / 255 + 16
  {
    SequencesSize(ss + [s]);
  }

  lemma RoomForLast(ss: seq<Sequence>, last: seq<byte>, n: nat)
    requires SequencesLength(ss) + |last| == n
    ensures |EncodeSequences(ss)| + |EncodeLast(last)| <= n + n / 255 + 2
  {
    SequencesSize(ss);
    DivSum(SequencesLength(ss), |last|);
  }

  // ---------- writing ----------

  method Put(dest: array<byte>, op: nat, b: byte)
    requires op < dest.Length
    modifies dest
    ensures dest[..op + 1] == old(dest[..op]) + [b]
    ensures forall k :: op + 1 <= k < dest.Length ==> dest[k] == old(dest[k])
  {
    dest[op] := b;
  }

  /** One byte of 255 of a length. */
  method Put255(dest: array<byte>, op: nat, n: nat, ghost all: seq<byte>)
    requires 255 <= n && op < dest.Length && dest[..op] + ExtraLength(n) == all
    modifies dest
    ensures dest[..op + 1] + ExtraLength(n - 255) == all && |ExtraLength(n)| == 1 + |ExtraLength(n - 255)|
    ensures forall k :: op + 1 <= k < dest.Length ==> dest[k] == old(dest[k])
  {
    ghost var before := dest[..op];
    Put(dest, op, 255);
    assert before + [255] + ExtraLength(n - 255) == before + ExtraLength(n);
  }

  /** A length in bytes of 255 and a smaller one. */
  method EmitLength(dest: array<byte>, start: nat, n: nat) returns (op: nat)
    requires start + |ExtraLength(n)| <= dest.Length
    modifies dest
    ensures op == start + |ExtraLength(n)| && dest[..op] == old(dest[..start]) + ExtraLength(n)
    ensures forall k :: op <= k < dest.Length ==> dest[k] == old(dest[k])
  {
    ghost var all := dest[..start] + ExtraLength(n);
    var len := n;
    op := start;
    while len >= 255
      invariant op + |ExtraLength(len)| == start + |ExtraLength(n)|
      invariant dest[..op] + ExtraLength(len) == all
      invariant forall k :: op <= k < dest.Length ==> dest[k] == old(dest[k])
    {
      Put255(dest, op, len, all);
      op, len := op + 1, len - 255;
    }
    Put(dest, op, len as byte);
    op := op + 1;
  }

  /** The same bytes, written two at a time. */
  method EmitMatchLength(dest: array<byte>, start: nat, n: nat) returns (op: nat)
    requires start + |ExtraLength(n)| <= dest.Length
    modifies dest
    ensures op == start + |ExtraLength(n)| && dest[..op] == old(dest[..start]) + ExtraLength(n)
    ensures forall k :: op <= k < dest.Length ==> dest[k] == old(dest[k])
  {
    ghost var all := dest[..start] + ExtraLength(n);
    var len := n;
    op := start;
    while len >= 510
      invariant op + |ExtraLength(len)| == start + |ExtraLength(n)|
      invariant dest[..op] + ExtraLength(len) == all
      invariant forall k :: op <= k < dest.Length ==> dest[k] == old(dest[k])
    {
      Put255(dest, op, len, all);
      Put255(dest, op + 1, len - 255, all);
      op, len := op + 2, len - 510;
    }
    if len >= 255 {
      Put255(dest, op, len, all);
      op, len := op + 1, len - 255;
    }
    Put(dest, op, len as byte);
    op := op + 1;
  }

  /** Token and literal length. */
  method EmitRun(dest: array<byte>, token: nat, run: nat) returns (op: nat)
    requires token + 1 + |LengthBytes(run)| <= dest.Length
    modifies dest
    ensures op == token + 1 + |LengthBytes(run)|
    ensures dest[..op] == old(dest[..token]) + [Token(run, 0)] + LengthBytes(run)
    ensures forall k :: op <= k < dest.Length ==> dest[k] == old(dest[k])
  {
    hide ExtraLength;
    ghost var before := dest[..token];
    op := token + 1;
    if run >= RUN_MASK {
      dest[token] := 0xF0;
      assert dest[..op] == before + [Token(run, 0)];
      op := EmitLength(dest, op, run - RUN_MASK);
    } else {
      dest[token] := (16 * run) as byte;
      assert dest[..op] == before + [Token(run, 0)];
    }
  }

  /** Token, literal length and literals; the copy may run over by up to 8 bytes. */
  method EmitLiterals(source: seq<byte>, dest: array<byte>, token: nat, anchor: nat, ip: nat) returns (op: nat)
    requires anchor <= ip && ip + MFLIMIT <= |source|
    requires token + 1 + |LengthBytes(ip - anchor)| + (ip - anchor) + COPYLENGTH <= dest.Length
    modifies dest
    ensures op == token + 1 + |LengthBytes(ip - anchor)| + (ip - anchor)
    ensures dest[..op] == old(dest[..token]) + [Token(ip - anchor, 0)] + LengthBytes(ip - anchor) + source[anchor..ip]
    ensures forall k :: op + COPYLENGTH <= k < dest.Length ==> dest[k] == old(dest[k])
  {
    hide LengthBytes, Token;
    var litLength := ip - anchor;
    op := EmitRun(dest, token, litLength);
    ghost var head := dest[..op];
    WildCopyIn(dest, op, source, anchor, op + litLength);
    assert dest[..op + litLength] == dest[..op] + dest[op..op + litLength];
    assert dest[..op] == head;
    op := op + litLength;
  }

  /** Offset and match length; the length's low part is added to the token written before. */
  method EmitMatch(dest: array<byte>, token: nat, start: nat, offset: nat, length: nat) returns (op: nat)
    requires token < start && start + 2 + |LengthBytes(length)| <= dest.Length && offset <= MAX_DISTANCE
    requires dest[token] as nat + 15 < 256
    modifies dest
    ensures op == start + 2 + |LengthBytes(length)|
    ensures dest[..op] == old(dest[..start])[token := (old(dest[token]) as nat + Nibble(length)) as byte]
                          + ToLE16(offset) + LengthBytes(length)
    ensures forall k :: op <= k < dest.Length ==> dest[k] == old(dest[k])
  {
    ghost var before := dest[..start];
    dest[start], dest[start + 1] := (offset % 256) as byte, (offset / 256) as byte;
    op := start + 2;
    assert dest[..op] == before + ToLE16(offset);
    dest[token] := (dest[token] as nat + if length >= ML_MASK then ML_MASK else length) as byte;
    assert dest[..op] == before[token := (before[token] as nat + Nibble(length)) as byte] + ToLE16(offset);
    if length >= ML_MASK {
      op := EmitMatchLength(dest, op, length - ML_MASK);
    }
  }

  /** Putting the length into the token makes the pieces one encoded sequence. */
  lemma PiecesAreSequence(pre: seq<byte>, s: Sequence)
    ensures (pre + [Token(|s.literals|, 0)] + LengthBytes(|s.literals|) + s.literals)
              [|pre| := (Token(|s.literals|, 0) as nat + Nibble(s.matchLength - MINMATCH)) as byte]
            + ToLE16(s.offset) + LengthBytes(s.matchLength - MINMATCH)
         == pre + EncodeSequence(s)
  {
    hide LengthBytes, ToLE16;
    var (t, t') := (Token(|s.literals|, 0), Token(|s.literals|, Nibble(s.matchLength - MINMATCH)));
    var (a, b, c) := (LengthBytes(|s.literals|), ToLE16(s.offset), LengthBytes(s.matchLength - MINMATCH));
    assert (pre + [t] + a + s.literals)[|pre| := t'] == pre + [t'] + a + s.literals;
    assert pre + [t'] + a + s.literals + b + c == pre + ([t'] + a + s.literals + b + c);
  }

  // ---------- the main loop ----------

  /** Nothing at or after `high` has been written since `was`. */
  predicate Untouched(now: seq<byte>, was: seq<byte>, high: nat) {
    |now| == |was| && forall k :: high <= k < |now| ==> now[k] == was[k]
  }

  /** Offset and length of one match whose token and literals [anchor, ip) are written. */
  method EmitSequence(source: seq<byte>, dest: array<byte>, token: nat, start: nat, ghost anchor: nat, ip: nat, ref: nat,
                      ghost ss: seq<Sequence>, ghost reach: nat)
    returns (op: nat, ip': nat, ghost s: Sequence)
    requires dest.Length >= CompressBound(|source|) && |source| <= LZ4_MAX_INPUT_SIZE
    requires Covers(ss, source, anchor) && anchor <= ip && ref < ip <= ref + MAX_DISTANCE
    requires ip + MFLIMIT <= |source| && ip + MINMATCH <= reach <= |source| - LASTLITERALS
    requires Agree(source, ip, ref, reach - ip)
    requires token == |EncodeSequences(ss)| < start <= dest.Length
    requires dest[..start] == EncodeSequences(ss) + [Token(ip - anchor, 0)] + LengthBytes(ip - anchor) + source[anchor..ip]
    modifies dest
    ensures reach <= ip' <= |source| - LASTLITERALS
    ensures Covers(ss + [s], source, ip') && s == MatchAt(source, anchor, ip, ref) && ip' == ip + s.matchLength
    ensures op == |EncodeSequences(ss + [s])| && start + 2 <= op <= dest.Length && dest[..op] == EncodeSequences(ss + [s])
    ensures Untouched(dest[..], old(dest[..]), op)
  {
    hide Covers, CompressBound, EncodeSequences, LengthBytes, Token, ToLE16, Nibble, Agree;
    var matchLength := MatchLengthAt(source, ip, ref, reach);
    ghost var before := dest[..start];
    s := SequenceWritten(ss, source, anchor, ip, ref, matchLength, before);
    op := EmitMatch(dest, token, start, ip - ref, matchLength);
    ip' := ip + MINMATCH + matchLength;
  }

  /** Completing the token and appending offset and length completes the sequence; there is room for it. */
  lemma SequenceWritten(ss: seq<Sequence>, source: seq<byte>, anchor: nat, ip: nat, ref: nat, length: nat, out: seq<byte>)
    returns (s: Sequence)
    requires Covers(ss, source, anchor) && anchor <= ip && ref < ip <= ref + MAX_DISTANCE
    requires ip + MFLIMIT <= |source| && ip + MINMATCH + length + LASTLITERALS <= |source| <= LZ4_MAX_INPUT_SIZE
    requires Agree(source, ip, ref, MINMATCH + length)
    requires out == EncodeSequences(ss) + [Token(ip - anchor, 0)] + LengthBytes(ip - anchor) + source[anchor..ip]
    ensures var token := |EncodeSequences(ss)|;
            && token < |out| && |out| + 2 + |LengthBytes(length)| <= CompressBound(|source|)
            && out[token] as nat + 15 < 256
            && out[token := (out[token] as nat + Nibble(length)) as byte] + ToLE16(ip - ref) + LengthBytes(length)
               == EncodeSequences(ss + [s])
    ensures Covers(ss + [s], source, ip + MINMATCH + length)
    ensures s == Sequence(source[anchor..ip], ip - ref, length + MINMATCH)
  {
    hide *;
    s := Sequence(source[anchor..ip], ip - ref, length + MINMATCH);
    CoversMore(ss, source, anchor, ip, ref, length + MINMATCH);
    CoversLength(ss + [s], source, ip + MINMATCH + length);
    RoomForSequence(ss, s, |source|);
    BoundIs(|source|);
    PiecesAreSequence(EncodeSequences(ss), s);
    EncodeAppend(ss, s);
    assert out[|EncodeSequences(ss)|] == Token(ip - anchor, 0);
  }

  lemma BoundIs(n: nat)
    requires n <= LZ4_MAX_INPUT_SIZE
    ensures CompressBound(n) == n + n / 255 + 16
  {}

  lemma CoversLength(ss: seq<Sequence>, source: seq<byte>, anchor: nat)
    requires Covers(ss, source, anchor)
    ensures anchor == SequencesLength(ss) <= |source|
  {}

  /** The length beyond MINMATCH; it gets at least as far as the bytes known to agree. */
  method MatchLengthAt(source: seq<byte>, ip: nat, ref: nat, ghost reach: nat) returns (r: nat)
    requires ref < ip && ip + MINMATCH <= reach <= |source| - LASTLITERALS && Agree(source, ip, ref, reach - ip)
    ensures reach <= ip + MINMATCH + r <= |source| - LASTLITERALS
    ensures Agree(source, ip, ref, MINMATCH + r) && r == Common(source, ip + 4, ref + 4, |source| - 5)
  {
    r := Count(source, ip + MINMATCH, ref + MINMATCH, |source| - LASTLITERALS);
    AgreeJoin(source, ip, ref, MINMATCH, reach - ip - MINMATCH);
    CommonPrefixIsLongest(source, ip + MINMATCH, ref + MINMATCH, |source| - LASTLITERALS, r, reach - ip - MINMATCH);
    AgreeJoin(source, ip, ref, MINMATCH, r);
    CommonIs(source, ip + MINMATCH, ref + MINMATCH, |source| - LASTLITERALS, r);
  }

  /** `dest` holds the encoded `ss`, which cover the input before `anchor`; at most 6 bytes more are touched. */
  ghost predicate Written(out: seq<byte>, was: seq<byte>, ss: seq<Sequence>, op: nat, source: seq<byte>, anchor: nat) {
    && op == |EncodeSequences(ss)| <= |out| && out[..op] == EncodeSequences(ss)
    && Covers(ss, source, anchor)
    && (ss != [] ==> anchor + LASTLITERALS <= |source|)
    && Untouched(out, was, op + if ss == [] then 0 else 1 + LASTLITERALS)
  }

  /** A match and those that follow it without literals between. */
  method MatchRun(source: seq<byte>, dest: array<byte>, table: array<nat>, tableType: TableType, hash: Hash,
                  token0: nat, start0: nat, anchor0: nat, ip0: nat, ref0: nat,
                  ghost was: seq<byte>, ghost ss0: seq<Sequence>, ghost reach0: nat)
    returns (ended: bool, op: nat, ip: nat, ghost ss: seq<Sequence>)
    requires Positions(source, tableType) && HashFits(hash, table.Length)
    requires dest.Length >= CompressBound(|source|)
    requires Covers(ss0, source, anchor0) && anchor0 <= ip0 && ref0 < ip0 <= ref0 + MAX_DISTANCE
    requires ip0 + MFLIMIT <= |source| && ip0 + MINMATCH <= reach0 <= |source| - LASTLITERALS
    requires Agree(source, ip0, ref0, reach0 - ip0)
    requires token0 == |EncodeSequences(ss0)| < start0 <= dest.Length
    requires dest[..start0] == EncodeSequences(ss0) + [Token(ip0 - anchor0, 0)] + LengthBytes(ip0 - anchor0) + source[anchor0..ip0]
    requires Untouched(dest[..], was, start0 + COPYLENGTH)
    requires EntriesBelow(table[..], reach0)
    modifies dest, table
    ensures Written(dest[..], was, ss, op, source, ip) && ss != []
    ensures reach0 <= ip
    ensures !ended ==> ip + MFLIMIT <= |source| && EntriesBelow(table[..], ip + 1)
    ensures var c := Follow(source, old(table[..]), hash, anchor0, ip0, ref0);
            ss == ss0 + c.ss && ip == c.anchor && ended == c.ended && (!ended ==> table[..] == c.table)
  {
    hide Covers, EncodeSequences, LengthBytes, Token, Agree, CompressBound, Follow, Offers, MatchAt, Noted, SlotOf, Continues;
    var token: nat, start: nat, anchor: nat, ref: nat := token0, start0, anchor0, ref0;
    ghost var reach := reach0;
    ghost var whole := Follow(source, table[..], hash, anchor0, ip0, ref0);
    ip, ss := ip0, ss0;
    AllToCome(ss0, whole);
    while true
      invariant reach0 <= reach && ip0 <= ip && Covers(ss, source, anchor) && anchor <= ip && ref < ip <= ref + MAX_DISTANCE
      invariant ip + MFLIMIT <= |source| && ip + MINMATCH <= reach <= |source| - LASTLITERALS
      invariant Agree(source, ip, ref, reach - ip)
      invariant token == |EncodeSequences(ss)| < start <= dest.Length
      invariant dest[..start] == EncodeSequences(ss) + [Token(ip - anchor, 0)] + LengthBytes(ip - anchor) + source[anchor..ip]
      invariant Untouched(dest[..], was, start + COPYLENGTH)
      invariant EntriesBelow(table[..], reach)
      invariant Continues(ss0, whole, ss, Follow(source, table[..], hash, anchor, ip, ref))
      decreases |source| - ip
    {
      ghost var s;
      ghost var (t, before0, anchorBefore, ipBefore, refBefore) := (table[..], ss, anchor, ip, ref);
      op, anchor, s := EmitSequence(source, dest, token, start, anchor, ip, ref, ss, reach);
      ip, ss := anchor, ss + [s];
      FollowStep(source, t, hash, anchorBefore, ipBefore, refBefore, ss0, whole, before0);
      if ip > |source| - MFLIMIT {
        NothingToCome(ss0, whole, ss, ip, t, true);
        return true, op, ip, ss;
      }
      var again;
      again, ref := NextMatch(source, table, tableType, hash, ip);
      if again {
        NoLiteralsYet(source, dest, op, ip, was, ss);
        token, start, reach := op, op + 1, ip + MINMATCH;
      } else {
        NothingToCome(ss0, whole, ss, ip, table[..], false);
        return false, op, ip, ss;
      }
    }
  }

  /** The token of a match that follows at once, with no literals. */
  method NoLiteralsYet(source: seq<byte>, dest: array<byte>, op: nat, ghost ip: nat, ghost was: seq<byte>, ghost ss: seq<Sequence>)
    requires dest.Length >= CompressBound(|source|) && |source| <= LZ4_MAX_INPUT_SIZE
    requires Covers(ss, source, ip) && ip + MFLIMIT <= |source|
    requires op == |EncodeSequences(ss)| <= dest.Length && dest[..op] == EncodeSequences(ss) && Untouched(dest[..], was, op + 1 + LASTLITERALS)
    modifies dest
    ensures op < dest.Length && dest[..op + 1] == EncodeSequences(ss) + [Token(0, 0)] + LengthBytes(0) + source[ip..ip]
    ensures Untouched(dest[..], was, op + 1 + COPYLENGTH)
  {
    hide Covers, EncodeSequences, LengthBytes, Token, CompressBound;
    CoversLength(ss, source, ip);
    RoomForLiterals(ss, 0, |source|);
    BoundIs(|source|);
    ghost var before := dest[..op];
    dest[op] := 0;
    NoLiterals(0);
    assert dest[..op + 1] == before + [Token(0, 0)];
  }

  /** Whether the table offers a match right here. */
  method NextMatch(source: seq<byte>, table: array<nat>, tableType: TableType, hash: Hash, ip: nat) returns (again: bool, ref: nat)
    requires Positions(source, tableType) && HashFits(hash, table.Length)
    requires 2 <= ip && ip + MFLIMIT <= |source| && EntriesBelow(table[..], ip)
    modifies table
    ensures EntriesBelow(table[..], ip + 1)
    ensures var t := Noted(old(table[..]), hash, source, ip - 2);
            && ref == SlotOf(t, hash, source, ip) && table[..] == Noted(t, hash, source, ip)
            && again == Offers(source, ip, ref, ByU32)
    ensures again ==> ref < ip <= ref + MAX_DISTANCE && Agree(source, ip, ref, MINMATCH)
  {
    hide Noted, SlotOf, Agree;
    ref := NextReference(source, table, tableType, hash, ip);
    again := ref + MAX_DISTANCE >= ip && Same(source, ip, ref, 4);
    OfferedIs(source, ip, ref);
  }

  /** What has been put out and what is still to come is the whole. */
  ghost predicate Continues(ss0: seq<Sequence>, whole: Chain, ss: seq<Sequence>, rest: Chain) {
    ss0 + whole.ss == ss + rest.ss && whole.anchor == rest.anchor && whole.table == rest.table && whole.ended == rest.ended
  }

  lemma AllToCome(ss0: seq<Sequence>, whole: Chain)
    ensures Continues(ss0, whole, ss0, whole)
  {}

  lemma NothingToCome(ss0: seq<Sequence>, whole: Chain, ss: seq<Sequence>, anchor: nat, table: seq<nat>, ended: bool)
    requires Continues(ss0, whole, ss, Chain([], anchor, table, ended))
    ensures ss == ss0 + whole.ss && anchor == whole.anchor && ended == whole.ended && table == whole.table
  {}

  lemma FollowStep(source: seq<byte>, table: seq<nat>, hash: Hash, anchor: nat, ip: nat, ref: nat,
                   ss0: seq<Sequence>, whole: Chain, ss: seq<Sequence>)
    requires anchor <= ip && ref < ip && ip - ref <= 65535 && ip + 12 <= |source|
    requires Continues(ss0, whole, ss, Follow(source, table, hash, anchor, ip, ref))
    ensures var s := MatchAt(source, anchor, ip, ref);
            var next := ip + s.matchLength;
            if next + 12 > |source| then Continues(ss0, whole, ss + [s], Chain([], next, table, true))
            else
              var t := Noted(table, hash, source, next - 2);
              var (r, t') := (SlotOf(t, hash, source, next), Noted(t, hash, source, next));
              Continues(ss0, whole, ss + [s], if Offers(source, next, r, ByU32) then Follow(source, t', hash, next, next, r) else Chain([], next, t', false))
  {
    hide MatchAt, Offers, Noted, SlotOf;
    var s := MatchAt(source, anchor, ip, ref);
    assert forall x: seq<Sequence> :: ss + ([s] + x) == ss + [s] + x;
    assert ss + [s] + [] == ss + [s];
  }

  lemma OfferedIs(source: seq<byte>, ip: nat, ref: nat)
    requires ref < ip && ip + MFLIMIT <= |source|
    ensures Offers(source, ip, ref, ByU32) <==> ref + MAX_DISTANCE >= ip && Same(source, ip, ref, 4)
  {
    hide Agree;
  }

  lemma NoLiterals(n: nat)
    requires n == 0
    ensures Token(n, 0) == 0 && LengthBytes(n) == []
  {}

  /** Two positions go into the table; what was in the slot of `ip` is tried next. */
  method NextReference(source: seq<byte>, table: array<nat>, tableType: TableType, hash: Hash, ip: nat) returns (ref: nat)
    requires Positions(source, tableType) && HashFits(hash, table.Length)
    requires 2 <= ip && ip + MFLIMIT <= |source| && EntriesBelow(table[..], ip)
    modifies table
    ensures ref < ip && EntriesBelow(table[..], ip + 1)
    ensures var t := Noted(old(table[..]), hash, source, ip - 2); ref == SlotOf(t, hash, source, ip) && table[..] == Noted(t, hash, source, ip)
  {
    var h := HashPosition(hash, source, ip - 2, table.Length);
    PutPositionOnHash(table, h, ip - 2, tableType, source);
    h := HashPosition(hash, source, ip, table.Length);
    ref := table[h];
    assert ref == table[..][h];
    PutPositionOnHash(table, h, ip, tableType, source);
  }

  /** Everything up to the last literals. */
  method Sequences(source: seq<byte>, dest: array<byte>, table: array<nat>, tableType: TableType, hash: Hash)
    returns (op: nat, anchor: nat, ghost ss: seq<Sequence>)
    requires Positions(source, tableType) && HashFits(hash, table.Length)
    requires dest.Length >= CompressBound(|source|) && LZ4_minLength <= |source|
    requires EntriesBelow(table[..], 1)
    modifies dest, table
    ensures Written(dest[..], old(dest[..]), ss, op, source, anchor)
    ensures ss == Greedy(source, Noted(old(table[..]), hash, source, 0), tableType, hash, 0, 1)
  {
    hide EncodeSequences, CompressBound, Turn, Written, Greedy;
    op, anchor, ss := 0, 0, [];
    NothingWritten(dest[..], source);
    var h := HashPosition(hash, source, 0, table.Length);
    PutPositionOnHash(table, h, 0, tableType, source);
    var ip: nat := 1;
    var forwardH: nat := HashPosition(hash, source, ip, table.Length);
    ghost var all := Greedy(source, table[..], tableType, hash, 0, 1);
    assert [] + all == all;
    assert table[..] == Noted(old(table[..]), hash, source, 0);
    while true
      invariant anchor < ip <= |source| - MFLIMIT + 1 && forwardH < table.Length && forwardH == hash(source[ip..ip + 8])
      invariant all == ss + Greedy(source, table[..], tableType, hash, anchor, ip)
      invariant EntriesBelow(table[..], ip)
      invariant Written(dest[..], old(dest[..]), ss, op, source, anchor)
      decreases |source| - ip
    {
      var ended;
      GreedyStep(source, table[..], tableType, hash, anchor, ip, all, ss);
      ended, op, anchor, ss := Round(source, dest, table, tableType, hash, op, anchor, ip, forwardH, old(dest[..]), ss);
      if ended {
        return;
      }
      ip := anchor + 1;
      forwardH := HashPosition(hash, source, ip, table.Length);
    }
  }

  lemma NothingEncoded()
    ensures EncodeSequences([]) == []
  {}

  lemma GreedyStep(source: seq<byte>, table: seq<nat>, tableType: TableType, hash: Hash, anchor: nat, start: nat, all: seq<Sequence>, ss: seq<Sequence>)
    requires anchor <= start && (tableType == ByU16 ==> |source| < 65547)
    requires all == ss + Greedy(source, table, tableType, hash, anchor, start)
    ensures var c := Turn(source, table, tableType, hash, anchor, start);
            && (c.ended ==> all == ss + c.ss)
            && (!c.ended && start <= c.anchor < |source| ==> all == ss + c.ss + Greedy(source, c.table, tableType, hash, c.anchor, c.anchor + 1))
  {
    hide Turn;
    var c := Turn(source, table, tableType, hash, anchor, start);
    if !c.ended && start <= c.anchor < |source| {
      var more := Greedy(source, c.table, tableType, hash, c.anchor, c.anchor + 1);
      assert ss + (c.ss + more) == ss + c.ss + more;
    }
  }

  lemma NothingWritten(out: seq<byte>, source: seq<byte>)
    ensures Written(out, out, [], 0, source, 0)
  {
    CoversNothing(source);
  }

  lemma TurnIs(source: seq<byte>, table: seq<nat>, tableType: TableType, hash: Hash, anchor: nat, start: nat)
    requires anchor <= start && (tableType == ByU16 ==> |source| < 65547)
    ensures var (c, h) := (Turn(source, table, tableType, hash, anchor, start), Search(source, table, tableType, hash, start, 0));
            if h.NoHit? then c == Chain([], anchor, table, true)
            else
              var (ip, ref) := Back(source, anchor, h.ip, h.ref);
              anchor <= ip && ref < ip && ip - ref <= 65535 && ip + 12 <= |source| && c == Follow(source, h.table, hash, anchor, ip, ref)
  {
    hide Search, Back, Follow;
  }

  /** Search, catch-up, literals and matches; `ended` when only the last literals are left. */
  method Round(source: seq<byte>, dest: array<byte>, table: array<nat>, tableType: TableType, hash: Hash,
               op0: nat, anchor0: nat, start: nat, startH: nat, ghost was: seq<byte>, ghost ss0: seq<Sequence>)
    returns (ended: bool, op: nat, anchor: nat, ghost ss: seq<Sequence>)
    requires Positions(source, tableType) && HashFits(hash, table.Length) && startH < table.Length
    requires dest.Length >= CompressBound(|source|) && MFLIMIT < |source|
    requires start + 8 <= |source| && startH == hash(source[start..start + 8])
    requires anchor0 < start <= |source| - MFLIMIT + 1 && EntriesBelow(table[..], start)
    requires Written(dest[..], was, ss0, op0, source, anchor0)
    modifies dest, table
    ensures Written(dest[..], was, ss, op, source, anchor)
    ensures !ended ==> start < anchor && anchor + MFLIMIT <= |source| && EntriesBelow(table[..], anchor + 1)
    ensures var c := Turn(source, old(table[..]), tableType, hash, anchor0, start);
            ss == ss0 + c.ss && anchor == c.anchor && ended == c.ended && (!ended ==> table[..] == c.table)
  {
    hide Covers, EncodeSequences, LengthBytes, Token, Agree, Follow, Turn, Search, Back, Offers, Written, CompressBound, SequencesLength;
    WrittenIs(dest[..], was, ss0, op0, source, anchor0);
    BoundIs(|source|);
    assert ss0 + [] == ss0;
    ghost var refs;
    var found, ip, ref;
    TurnIs(source, table[..], tableType, hash, anchor0, start);
    found, ip, ref, refs := FindMatch(source, table, tableType, hash, start, startH);
    if !found {
      return true, op0, anchor0, ss0;
    }
    ghost var reach := ip + MINMATCH;
    ip, ref := CatchUp(source, anchor0, ip, ref, MINMATCH);
    CoversLength(ss0, source, anchor0);
    RoomForLiterals(ss0, ip - anchor0, |source|);
    assert dest[..op0] == dest[..][..op0];
    var next := EmitLiterals(source, dest, op0, anchor0, ip);
    ended, op, anchor, ss := MatchRun(source, dest, table, tableType, hash, op0, next, anchor0, ip, ref, was, ss0, reach);
  }

  // ---------- the whole compressor ----------

  /** `enc` is the encoding of a block that means `source` and fits a buffer of just that size. */
  ghost predicate IsCompressed(enc: seq<byte>, source: seq<byte>) {
    exists b: Block :: IsCompressedAs(enc, source, b)
  }

  ghost predicate IsCompressedAs(enc: seq<byte>, source: seq<byte>, b: Block) {
    enc == Encode(b) && Resolvable(b.sequences) && Meaning(b) == source && Fits(b, |source|)
  }

  lemma {:induction false} DisciplinedPrefix(ss: seq<Sequence>, i: nat, n: nat)
    requires Disciplined(ss, n) && i <= |ss|
    ensures Disciplined(ss[..i], n)
    decreases |ss|
  {
    if i < |ss| {
      DisciplinedPrefix(ss[..|ss| - 1], i, n);
      assert ss[..|ss| - 1][..i] == ss[..i];
    } else {
      assert ss[..i] == ss;
    }
  }

  lemma {:induction false} ResolvablePrefix(ss: seq<Sequence>, i: nat)
    requires Resolvable(ss) && i <= |ss|
    ensures Resolvable(ss[..i])
    decreases |ss|
  {
    if i < |ss| {
      ResolvablePrefix(ss[..|ss| - 1], i);
      assert ss[..|ss| - 1][..i] == ss[..i];
    } else {
      assert ss[..i] == ss;
    }
  }

  /** The compressor's discipline implies every end-of-block rule of the decoder. */
  lemma {:induction false} DisciplineFits(ss: seq<Sequence>, last: seq<byte>, n: nat, max: nat, i: nat)
    requires i <= |ss| && Disciplined(ss, n) && Resolvable(ss) && n <= max
    requires SequencesLength(ss) + |last| == n && (ss != [] ==> LASTLITERALS <= |last|)
    ensures FitsFrom(ss[i..], last, SequencesLength(ss[..i]), max)
    decreases |ss| - i
  {
    hide *;
    if i == |ss| {
      assert ss[..i] == ss && ss[i..] == [];
      FitsNone(last, SequencesLength(ss), max);
    } else {
      DisciplineFits(ss, last, n, max, i + 1);
      assert ss[i..] == [ss[i]] + ss[i + 1..];
      SequenceKeepsRules(ss, n, i, |EncodeSequences(ss[i + 1..])| + |EncodeLast(last)|, max);
      FitsMore(ss[i], ss[i + 1..], last, SequencesLength(ss[..i]), max);
    }
  }

  lemma FitsNone(last: seq<byte>, op: nat, max: nat)
    requires op + |last| <= max
    ensures FitsFrom([], last, op, max)
  {}

  lemma FitsMore(s: Sequence, ss: seq<Sequence>, last: seq<byte>, op: nat, max: nat)
    requires SequenceFits(s, |EncodeSequences(ss)| + |EncodeLast(last)|, op, max)
    requires FitsFrom(ss, last, op + SequenceLength(s), max)
    ensures FitsFrom([s] + ss, last, op, max)
  {
    assert ([s] + ss)[1..] == ss;
  }

  lemma SequenceKeepsRules(ss: seq<Sequence>, n: nat, i: nat, rest: nat, max: nat)
    requires i < |ss| && Disciplined(ss, n) && Resolvable(ss) && n <= max && rest > LASTLITERALS
    ensures SequenceFits(ss[i], rest, SequencesLength(ss[..i]), max)
    ensures SequencesLength(ss[..i + 1]) == SequencesLength(ss[..i]) + SequenceLength(ss[i])
  {
    hide Disciplined, Resolvable, SequencesLength, LengthBytes;
    PrefixFacts(ss, n, i);
  }

  lemma PrefixFacts(ss: seq<Sequence>, n: nat, i: nat)
    requires i < |ss| && Disciplined(ss, n) && Resolvable(ss)
    ensures SequencesLength(ss[..i + 1]) == SequencesLength(ss[..i]) + SequenceLength(ss[i])
    ensures SequencesLength(ss[..i]) + |ss[i].literals| + MFLIMIT <= n
    ensures SequencesLength(ss[..i + 1]) + LASTLITERALS <= n
    ensures 1 <= ss[i].offset <= SequencesLength(ss[..i]) + |ss[i].literals|
  {
    var front := ss[..i + 1];
    assert front[..|front| - 1] == ss[..i] && front[|front| - 1] == ss[i];
    DisciplinedPrefix(ss, i + 1, n);
    ResolvablePrefix(ss, i + 1);
  }

  /** The closing literals. */
  method LastLiterals(source: seq<byte>, dest: array<byte>, op0: nat, anchor: nat, ghost was: seq<byte>, ghost ss: seq<Sequence>)
    returns (op: nat)
    requires Written(dest[..], was, ss, op0, source, anchor)
    requires dest.Length >= CompressBound(|source|) && |source| <= LZ4_MAX_INPUT_SIZE
    modifies dest
    ensures op <= |source| + |source| / 255 + 2
    ensures op <= dest.Length && IsCompressed(dest[..op], source)
    ensures SequencesLength(ss) == anchor <= |source| && dest[..op] == Encode(Block(ss, source[anchor..]))
    ensures Untouched(dest[..], was, op)
  {
    hide EncodeSequences, Covers, LengthBytes, Token, IsCompressed, CompressBound, Encode, SequencesLength, Written;
    WrittenIs(dest[..], was, ss, op0, source, anchor);
    var lastRun := |source| - anchor;
    ghost var before := dest[..][..op0];
    LastWritten(ss, source, anchor, before);
    assert before == dest[..op0];
    op := EmitRun(dest, op0, lastRun);
    ghost var head := dest[..op];
    forall k | 0 <= k < lastRun { dest[op + k] := source[anchor + k]; }
    assert dest[..op + lastRun] == head + source[anchor..];
    op := op + lastRun;
  }

  lemma WrittenIs(out: seq<byte>, was: seq<byte>, ss: seq<Sequence>, op: nat, source: seq<byte>, anchor: nat)
    requires Written(out, was, ss, op, source, anchor)
    ensures op == |EncodeSequences(ss)| <= |out| && out[..op] == EncodeSequences(ss) && Covers(ss, source, anchor)
    ensures Untouched(out, was, op + if ss == [] then 0 else 6)
    ensures SequencesLength(ss) == anchor <= |source| && (ss != [] ==> anchor + LASTLITERALS <= |source|)
  {}

  lemma LastWritten(ss: seq<Sequence>, source: seq<byte>, anchor: nat, before: seq<byte>)
    requires Covers(ss, source, anchor) && (ss != [] ==> anchor + LASTLITERALS <= |source|)
    requires before == EncodeSequences(ss) && anchor <= |source| <= LZ4_MAX_INPUT_SIZE
    ensures var last := source[anchor..];
            && |before| + 1 + |LengthBytes(|last|)| + |last| <= |source| + |source| / 255 + 2 <= CompressBound(|source|)
            && IsCompressed(before + [Token(|last|, 0)] + LengthBytes(|last|) + last, source)
            && before + [Token(|last|, 0)] + LengthBytes(|last|) + last == Encode(Block(ss, last))
  {
    hide EncodeSequences, Covers, LengthBytes, Token, IsCompressed;
    var last := source[anchor..];
    CoversLength(ss, source, anchor);
    RoomForLast(ss, last, |source|);
    BlockComplete(ss, source, anchor);
    assert before + [Token(|last|, 0)] + LengthBytes(|last|) + last == before + EncodeLast(last);
  }

  lemma BlockComplete(ss: seq<Sequence>, source: seq<byte>, anchor: nat)
    requires Covers(ss, source, anchor) && (ss != [] ==> anchor + LASTLITERALS <= |source|)
    ensures IsCompressed(EncodeSequences(ss) + EncodeLast(source[anchor..]), source)
  {
    hide FitsFrom, Disciplined, EncodeSequences, EncodeLast;
    var b := Block(ss, source[anchor..]);
    DisciplineFits(ss, b.last, |source|, |source|, 0);
    assert ss[0..] == ss && ss[..0] == [];
    assert IsCompressedAs(EncodeSequences(ss) + EncodeLast(source[anchor..]), source, b);
  }

  /**
   Compression without output limit.  Input that is too large for the table's entries gives 0.
   Otherwise the result is at most n + n/255 + 2 bytes, is the encoding of a block that means
   the input, and nothing at or after its end is written.
   */
  method CompressGeneric(source: seq<byte>, dest: array<byte>, table: array<nat>, tableType: TableType, hash: Hash)
    returns (r: nat)
    requires HashFits(hash, table.Length) && EntriesBelow(table[..], 1)
    requires dest.Length >= CompressBound(|source|)
    modifies dest, table
    ensures !Positions(source, tableType) ==> r == 0
    ensures Positions(source, tableType) ==>
      && r <= |source| + |source| / 255 + 2
      && r <= dest.Length && IsCompressed(dest[..r], source)
      && dest[..r] == Encode(GreedyBlock(source, old(table[..]), tableType, hash))
    ensures Untouched(dest[..], old(dest[..]), r)
  {
    hide IsCompressed, EncodeSequences, Greedy, Noted;
    if |source| > LZ4_MAX_INPUT_SIZE { return 0; }
    if tableType == ByU16 && |source| >= LZ4_64Klimit { return 0; }
    var op: nat, anchor: nat := 0, 0;
    ghost var ss: seq<Sequence> := [];
    NothingEncoded();
    CoversNothing(source);
    if |source| >= LZ4_minLength {
      op, anchor, ss := Sequences(source, dest, table, tableType, hash);
    }
    r := LastLiterals(source, dest, op, anchor, old(dest[..]), ss);
  }

  /** The hash of the source: 64 bit product with a prime, of which the bits below 40 are used. */
  function HashBytes(s: seq<byte>, tableType: TableType): (h: nat)
    ensures h < if tableType == ByU16 then 0x2000 else 0x1000
  {
    var product := FromLE(s) * 889523592379 % 0x1_0000_0000_0000_0000;
    if tableType == ByU16 then product / 0x800_0000 % 0x2000 else product / 0x1000_0000 % 0x1000
  }

  function FromLE(s: seq<byte>): nat {
    if s == [] then 0 else s[0] as nat + 256 * FromLE(s[1..])
  }

  /** The compressor's hash. */
  function HashOf(tableType: TableType): (hash: Hash)
    ensures HashFits(hash, if tableType == ByU16 then 0x2000 else 0x1000)
  {
    hide HashBytes;
    s => HashBytes(s, tableType)
  }

  /** The hash sees five of the eight bytes. */
  lemma FiveBytes(s: seq<byte>, t: seq<byte>, tableType: TableType)
    requires |s| == |t| == 8 && s[..5] == t[..5]
    ensures HashBytes(s, tableType) == HashBytes(t, tableType)
  {
    FromLESplit(s);
    FromLESplit(t);
    BitsBelow40(FromLE(s[..5]), FromLE(s[5..]));
    BitsBelow40(FromLE(t[..5]), FromLE(t[5..]));
  }

  lemma FromLESplit(s: seq<byte>)
    requires |s| == 8
    ensures FromLE(s) == FromLE(s[..5]) + 0x100_0000_0000 * FromLE(s[5..])
  {
    Digits(s, s[..5], s[5..]);
  }

  lemma Digits(s: seq<byte>, a: seq<byte>, b: seq<byte>)
    requires |a| == 5 && s == a + b
    ensures FromLE(s) == FromLE(a) + 0x100_0000_0000 * FromLE(b)
  {
    hide FromLE;
    LeastFirst(a[4..], b);
    LeastFirst(a[3..], b);
    LeastFirst(a[2..], b);
    LeastFirst(a[1..], b);
    LeastFirst(a, b);
    assert FromLE(a[4..][1..] + b) == FromLE(b) by { assert a[4..][1..] + b == b; }
    Nothing(a[4..][1..]);
    assert a[3..][1..] == a[4..] && a[2..][1..] == a[3..] && a[1..][1..] == a[2..];
  }

  lemma Nothing(a: seq<byte>)
    requires a == []
    ensures FromLE(a) == 0
  {}

  lemma LeastFirst(a: seq<byte>, b: seq<byte>)
    requires a != []
    ensures FromLE(a + b) == a[0] as nat + 256 * FromLE(a[1..] + b) && FromLE(a) == a[0] as nat + 256 * FromLE(a[1..])
  {
    assert (a + b)[1..] == a[1..] + b;
  }

  lemma BitsBelow40(low: nat, high: nat)
    ensures var p := (low + 0x100_0000_0000 * high) * 889523592379 % 0x1_0000_0000_0000_0000;
            && p / 0x800_0000 % 0x2000 == low * 889523592379 % 0x100_0000_0000 / 0x800_0000
            && p / 0x1000_0000 % 0x1000 == low * 889523592379 % 0x100_0000_0000 / 0x1000_0000
  {
    var (a, b) := (low * 889523592379, high * 889523592379);
    var n := a + 0x100_0000_0000 * b;
    assert n == (low + 0x100_0000_0000 * high) * 889523592379;
    var (q, u) := (n / 0x1_0000_0000_0000_0000, a % 0x100_0000_0000);
    Middle(u, a / 0x100_0000_0000 + b - 0x100_0000 * q);
  }

  lemma Middle(u: nat, v: int)
    requires u < 0x100_0000_0000
    ensures (u + 0x100_0000_0000 * v) / 0x800_0000 % 0x2000 == u / 0x800_0000
    ensures (u + 0x100_0000_0000 * v) / 0x1000_0000 % 0x1000 == u / 0x1000_0000
  {
    assert (u + 0x100_0000_0000 * v) / 0x800_0000 == u / 0x800_0000 + 0x2000 * v;
    assert (u + 0x100_0000_0000 * v) / 0x1000_0000 == u / 0x1000_0000 + 0x1000 * v;
  }

  function Zeros(n: nat): seq<nat> {
    seq(n, _ => 0)
  }

  /** The block of an input: below 65547 bytes with a table of 8192 places, else of 4096 and with matches up to 65535 bytes back. */
  function DefaultBlock(source: seq<byte>): Block {
    if |source| < 65547 then GreedyBlock(source, Zeros(8192), ByU16, HashOf(ByU16))
    else GreedyBlock(source, Zeros(4096), ByU32, HashOf(ByU32))
  }

  /** The entry the block codec uses: a fresh table of zeros, narrow entries for small inputs. */
  method Compress(source: seq<byte>, dest: array<byte>) returns (r: nat)
    requires dest.Length >= CompressBound(|source|)
    modifies dest
    ensures |source| > LZ4_MAX_INPUT_SIZE ==> r == 0
    ensures |source| <= LZ4_MAX_INPUT_SIZE ==>
      && r <= |source| + |source| / 255 + 2
      && r <= dest.Length && IsCompressed(dest[..r], source)
      && dest[..r] == Encode(DefaultBlock(source))
    ensures Untouched(dest[..], old(dest[..]), r)
  {
    hide IsCompressed, HashOf, Encode, GreedyBlock;
    var tableType := if |source| < LZ4_64Klimit then ByU16 else ByU32;
    var table := new nat[if tableType == ByU16 then 0x2000 else 0x1000](_ => 0);
    assert table[..] == Zeros(table.Length);
    r := CompressGeneric(source, dest, table, tableType, HashOf(tableType));
  }
}
