/**
 What the compressor looks for: from each position on, the first earlier position that the hash
 table offers, is near enough, and has the same four bytes; the match extended both ways.
 */
module Lz4Greedy {
  import opened Bytes
  import opened Lz4Format

  datatype TableType = ByU32 | ByU16

  /** A hash of the 8 bytes at a position; matches are correct whatever it is. */
  type Hash = seq<byte> -> nat

  ghost predicate HashFits(hash: Hash, size: nat) {
    forall s: seq<byte> :: |s| == 8 ==> hash(s) < size
  }

  /** Position `p` written to the slot of its 8 bytes. */
  function Noted(table: seq<nat>, hash: Hash, source: seq<byte>, p: nat): (t: seq<nat>)
    requires p + 8 <= |source|
    ensures |t| == |table|
  {
    var h := hash(source[p..p + 8]);
    if h < |table| then table[h := p] else table
  }

  /** What stands in the slot of the 8 bytes at `p`. */
  function SlotOf(table: seq<nat>, hash: Hash, source: seq<byte>, p: nat): nat
    requires p + 8 <= |source|
  {
    var h := hash(source[p..p + 8]);
    if h < |table| then table[h] else 0
  }

  /** The place of the `k`-th try of a search: the first 64 one by one, later ones in growing steps. */
  function Probe(start: nat, k: nat): (p: nat)
    ensures start + k <= p
  {
    if k == 0 then start
    else Probe(start, k - 1) + if k == 1 then 1 else (64 + k - 2) / 64
  }

  /** An earlier position with the same four bytes; for larger inputs it has to be near enough. */
  predicate Offers(source: seq<byte>, ip: nat, ref: nat, tableType: TableType) {
    && ref < ip && ip + 4 <= |source| && (tableType == ByU16 || ip - ref <= 65535)
    && source[ip..ip + 4] == source[ref..ref + 4]
  }

  datatype Hit = NoHit | Hit(ip: nat, ref: nat, table: seq<nat>)

  /** The search, from its `k`-th try on; every position that is tried goes into the table. */
  function Search(source: seq<byte>, table: seq<nat>, tableType: TableType, hash: Hash, start: nat, k: nat): (r: Hit)
    ensures r.Hit? ==> start <= r.ip && r.ip + 12 < |source| && Offers(source, r.ip, r.ref, tableType)
    decreases |source| - Probe(start, k)
  {
    var ip := Probe(start, k);
    if Probe(start, k + 1) + 12 > |source| then NoHit
    else
      var (ref, t) := (SlotOf(table, hash, source, ip), Noted(table, hash, source, ip));
      if Offers(source, ip, ref, tableType) then Hit(ip, ref, t)
      else Search(source, t, tableType, hash, start, k + 1)
  }

  /** A match extended to the front, but not beyond `anchor`. */
  function Back(source: seq<byte>, anchor: nat, ip: nat, ref: nat): (r: (nat, nat))
    requires ref < ip <= |source|
    ensures r.1 <= ref && r.0 - r.1 == ip - ref && (anchor <= ip ==> anchor <= r.0)
    decreases ip
  {
    if ip > anchor && ref > 0 && source[ip - 1] == source[ref - 1] then Back(source, anchor, ip - 1, ref - 1) else (ip, ref)
  }

  /** How many bytes before `limit` are the same at both places. */
  function Common(source: seq<byte>, i: nat, m: nat, limit: nat): (n: nat)
    requires m <= i && limit <= |source|
    ensures i <= limit ==> i + n <= limit
    decreases limit - i
  {
    if i < limit && source[i] == source[m] then 1 + Common(source, i + 1, m + 1, limit) else 0
  }

  /** The sequence of a match: the literals since `anchor`, and a match as long as it goes before the last 5 bytes. */
  function MatchAt(source: seq<byte>, anchor: nat, ip: nat, ref: nat): Sequence
    requires anchor <= ip && ref < ip && ip - ref <= 65535 && ip + 12 <= |source|
  {
    Sequence(source[anchor..ip], ip - ref, 4 + Common(source, ip + 4, ref + 4, |source| - 5))
  }

  /** Sequences one after the other, where they end, the table, and whether only the last literals are left. */
  datatype Chain = Chain(ss: seq<Sequence>, anchor: nat, table: seq<nat>, ended: bool)

  /** A match and those that follow it at once, each offered by the table right where the one before ends. */
  function Follow(source: seq<byte>, table: seq<nat>, hash: Hash, anchor: nat, ip: nat, ref: nat): (c: Chain)
    requires anchor <= ip && ref < ip && ip - ref <= 65535 && ip + 12 <= |source|
    decreases |source| - ip
  {
    var s := MatchAt(source, anchor, ip, ref);
    var next := ip + s.matchLength;
    if next + 12 > |source| then Chain([s], next, table, true)
    else
      var t := Noted(table, hash, source, next - 2);
      var (r, t') := (SlotOf(t, hash, source, next), Noted(t, hash, source, next));
      if Offers(source, next, r, ByU32) then
        var more := Follow(source, t', hash, next, next, r);
        more.(ss := [s] + more.ss)
      else Chain([s], next, t', false)
  }

  /** A search and what comes of it. */
  function Turn(source: seq<byte>, table: seq<nat>, tableType: TableType, hash: Hash, anchor: nat, start: nat): Chain
    requires anchor <= start && (tableType == ByU16 ==> |source| < 65547)
  {
    match Search(source, table, tableType, hash, start, 0)
    case NoHit => Chain([], anchor, table, true)
    case Hit(p, r, t) =>
      var (ip, ref) := Back(source, anchor, p, r);
      Follow(source, t, hash, anchor, ip, ref)
  }

  /** All sequences of an input, from `anchor` on. */
  function Greedy(source: seq<byte>, table: seq<nat>, tableType: TableType, hash: Hash, anchor: nat, start: nat): seq<Sequence>
    requires anchor <= start && (tableType == ByU16 ==> |source| < 65547)
    decreases |source| - start
  {
    var t := Turn(source, table, tableType, hash, anchor, start);
    if t.ended || t.anchor < start || t.anchor >= |source| then t.ss
    else t.ss + Greedy(source, t.table, tableType, hash, t.anchor, t.anchor + 1)
  }

  /** The block of an input: literals only below 13 bytes. */
  function GreedyBlock(source: seq<byte>, table: seq<nat>, tableType: TableType, hash: Hash): Block
    requires tableType == ByU16 ==> |source| < 65547
  {
    var ss := if |source| < 13 then [] else Greedy(source, Noted(table, hash, source, 0), tableType, hash, 0, 1);
    Block(ss, if SequencesLength(ss) <= |source| then source[SequencesLength(ss)..] else [])
  }

  // ---------- what comes of a run of one byte ----------

  lemma {:induction false} CommonOfRun(source: seq<byte>, i: nat, m: nat, limit: nat)
    requires m <= i <= limit <= |source| && forall k :: 0 <= k < |source| ==> source[k] == source[0]
    ensures Common(source, i, m, limit) == limit - i
    decreases limit - i
  {
    if i < limit {
      assert source[i] == source[0] && source[m] == source[0];
      CommonOfRun(source, i + 1, m + 1, limit);
    }
  }

  /** From 14 equal bytes on: one literal, a match of all but the last 5, and these. */
  lemma RunIsOneMatch(source: seq<byte>, table: seq<nat>, tableType: TableType, hash: Hash)
    requires 14 <= |source| && forall k :: 0 <= k < |source| ==> source[k] == source[0]
    requires (forall h :: 0 <= h < |table| ==> table[h] == 0) && (tableType == ByU16 ==> |source| < 65547)
    ensures GreedyBlock(source, table, tableType, hash)
            == Block([Sequence([source[0]], 1, |source| - 6)], source[|source| - 5..])
  {
    var t := Noted(table, hash, source, 0);
    assert Probe(1, 0) == 1 && Probe(1, 1) == 2;
    assert SlotOf(t, hash, source, 1) == 0;
    assert source[1..5] == source[0..4];
    assert Search(source, t, tableType, hash, 1, 0) == Hit(1, 0, Noted(t, hash, source, 1));
    assert Back(source, 0, 1, 0) == (1, 0);
    CommonOfRun(source, 5, 4, |source| - 5);
    assert source[0..1] == [source[0]];
    var s := Sequence([source[0]], 1, |source| - 6);
    assert MatchAt(source, 0, 1, 0) == s;
    assert Greedy(source, t, tableType, hash, 0, 1) == [s];
    assert SequencesLength([s]) == SequencesLength([]) + SequenceLength(s);
  }
}
