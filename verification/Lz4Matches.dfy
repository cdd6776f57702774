/** How the compressor finds its matches: hash table, catch-up, common prefix. */
module Lz4Matches {
  import opened Bytes
  import opened Lz4Format
  import opened Lz4Greedy
  import opened BitWords

  const LZ4_64Klimit: nat := 0x1_0000 + (MFLIMIT - 1)
  const ACCELERATION_DEFAULT: nat := 1
  const SKIP_UNIT: nat := 64 // 1 << LZ4_skipTrigger
  const STEPSIZE: nat := 8

  /** Every entry is a position before `ip`. */
  predicate EntriesBelow(table: seq<nat>, ip: nat) {
    forall h :: 0 <= h < |table| ==> table[h] < ip
  }

  /** A position as an entry of the given width. */
  function Entry(p: nat, tableType: TableType): nat {
    if tableType == ByU16 then p % 0x1_0000 else p % 0x1_0000_0000
  }

  predicate Positions(source: seq<byte>, tableType: TableType) {
    |source| <= 0x7E00_0000 && (tableType == ByU16 ==> |source| < LZ4_64Klimit)
  }

  method PutPositionOnHash(table: array<nat>, h: nat, p: nat, tableType: TableType, source: seq<byte>)
    requires h < table.Length && Positions(source, tableType) && p + MFLIMIT <= |source|
    modifies table
    ensures table[..] == old(table[..])[h := p]
  {
    table[h] := Entry(p, tableType);
  }

  method HashPosition(hash: Hash, source: seq<byte>, p: nat, ghost size: nat) returns (h: nat)
    requires HashFits(hash, size) && p + STEPSIZE <= |source|
    ensures h < size && h == hash(source[p..p + 8])
  {
    h := hash(source[p..p + STEPSIZE]);
  }

  /** The `r` bytes at `i` are those at `m`. */
  predicate Agree(source: seq<byte>, i: nat, m: nat, r: nat)
    requires m <= i && i + r <= |source|
  {
    forall p :: i <= p < i + r ==> source[p] == source[p - (i - m)]
  }

  /** The bytes at `i` and at `m` agree for exactly `r` places before `limit`. */
  predicate CommonPrefix(source: seq<byte>, i: nat, m: nat, limit: nat, r: nat)
    requires m <= i && limit <= |source|
  {
    i + r <= limit && Agree(source, i, m, r) && (i + r == limit || source[i + r] != source[m + r])
  }

  /** The common prefix is what counting byte by byte gives. */
  lemma {:induction false} CommonIs(source: seq<byte>, i: nat, m: nat, limit: nat, r: nat)
    requires m <= i && limit <= |source| && CommonPrefix(source, i, m, limit, r)
    ensures Common(source, i, m, limit) == r
    decreases r
  {
    if r > 0 {
      assert source[i] == source[i - (i - m)];
      CommonIs(source, i + 1, m + 1, limit, r - 1);
    }
  }

  lemma CommonPrefixIsLongest(source: seq<byte>, i: nat, m: nat, limit: nat, r: nat, k: nat)
    requires m <= i && limit <= |source| && CommonPrefix(source, i, m, limit, r)
    requires i + k <= limit && Agree(source, i, m, k)
    ensures k <= r
  {}

  /** Reading `k` bytes at both places and comparing them. */
  function Same(source: seq<byte>, i: nat, m: nat, k: nat): (b: bool)
    requires m <= i && i + k <= |source|
    ensures b <==> Agree(source, i, m, k)
  {
    assert source[i..i + k] == source[m..m + k] ==> Agree(source, i, m, k) by {
      forall p | i <= p < i + k && source[i..i + k] == source[m..m + k]
        ensures source[p] == source[p - (i - m)]
      {
        assert source[p] == source[i..i + k][p - i] == source[m..m + k][p - i];
      }
    }
    source[i..i + k] == source[m..m + k]
  }

  // ---------- the first difference of two words ----------

  /** Eight times the number of trailing zero bytes of a word that is not zero. */
  function ZeroByteBits(x: bv64): (n: bv64)
    ensures n & 7 == 0 && n < 64
  {
    if x & 0xFFFF_FFFF != 0 then
      if x & 0xFFFF != 0 then (if x & 0xFF != 0 then 0 else 8)
      else if x & 0xFF_FFFF != 0 then 16 else 24
    else if x & 0xFFFF_FFFF_FFFF != 0 then
      if x & 0xFF_FFFF_FFFF != 0 then 32 else 40
    else if x & 0xFF_FFFF_FFFF_FFFF != 0 then 48 else 56
  }

  /** Number of trailing zero bits of a byte that is not zero. */
  function LowZeros(y: bv64): (n: bv64)
    ensures n < 8
  {
    if y & 1 != 0 then 0 else if y & 2 != 0 then 1 else if y & 4 != 0 then 2 else if y & 8 != 0 then 3
    else if y & 0x10 != 0 then 4 else if y & 0x20 != 0 then 5 else if y & 0x40 != 0 then 6 else 7
  }

  /** A word without its trailing zero bytes. */
  function WithoutZeroBytes(x: bv64): bv64 {
    x >> ZeroByteBits(x)
  }

  /** The instruction that counts trailing zero bits. */
  function TrailingZeros(x: bv64): bv64 {
    ZeroByteBits(x) | LowZeros(WithoutZeroBytes(x))
  }

  /** The trailing zero bits of a word that is not zero, counted one by one. */
  function CountZeros(x: bv64): bv64
    requires x != 0
    decreases x
  {
    if x & 1 == 1 then 0 else 1 + CountZeros(x >> 1)
  }

  lemma {:induction false} TrailingZerosCounts(x: bv64)
    requires x != 0
    ensures TrailingZeros(x) == CountZeros(x)
    decreases x
  {
    hide TrailingZeros;
    OddOrHalved(x);
    if x & 1 == 0 { TrailingZerosCounts(x >> 1); }
  }

  lemma OddOrHalved(x: bv64)
    requires x != 0
    ensures x & 1 == 1 ==> TrailingZeros(x) == 0
    ensures x & 1 == 0 ==> x >> 1 != 0 && x >> 1 < x && TrailingZeros(x) == 1 + TrailingZeros(x >> 1)
  {
    hide TrailingZeros;
    Odd(x);
    if x & 1 == 0 {
      Halved(x);
      if x & 0xFF != 0 { HalvedIn(x); } else { HalvedAcross(x); }
    }
  }

  lemma Halved(x: bv64)
    requires x != 0 && x & 1 == 0
    ensures x >> 1 != 0 && x >> 1 < x
  {}

  lemma Odd(x: bv64)
    ensures x & 1 == 1 ==> TrailingZeros(x) == 0
  {}

  lemma HalvedIn(x: bv64)
    requires x & 1 == 0 && x & 0xFF != 0
    ensures TrailingZeros(x) == 1 + TrailingZeros(x >> 1)
  {}

  lemma HalvedAcross(x: bv64)
    requires x != 0 && x & 0xFF == 0
    ensures TrailingZeros(x) == 1 + TrailingZeros(x >> 1)
  {}

  lemma TrailingZeroBytes(x: bv64)
    ensures TrailingZeros(x) >> 3 == ZeroByteBits(x) >> 3
  {
    hide LowZeros, ZeroByteBits, WithoutZeroBytes;
    ByteOfBit(ZeroByteBits(x), LowZeros(WithoutZeroBytes(x)));
  }

  lemma ByteOfBit(n: bv64, l: bv64)
    requires n & 7 == 0 && l < 8
    ensures (n | l) >> 3 == n >> 3
  {}

  /** In a word with trailing zeros, which bytes are zero. */
  lemma ZeroBytes(x: bv64, j: bv64)
    requires x != 0 && j < 8
    ensures var k := TrailingZeros(x) >> 3; k < 8 && (j < k ==> ByteV(x, j) == 0) && (j == k ==> ByteV(x, j) != 0)
  {
    hide TrailingZeros, ZeroByteBits, ByteV;
    TrailingZeroBytes(x);
    ZeroBytesOf(x, j);
  }

  lemma ZeroBytesOf(x: bv64, j: bv64)
    requires x != 0 && j < 8
    ensures var k := ZeroByteBits(x) >> 3; k < 8 && (j < k ==> ByteV(x, j) == 0) && (j == k ==> ByteV(x, j) != 0)
  {}

  /** A byte number as an index. */
  function Number(k: bv64): (n: nat)
    requires k < 8
    ensures n < 8 && Shift(n) == k
  {
    if k == 0 then 0 else if k == 1 then 1 else if k == 2 then 2 else if k == 3 then 3
    else if k == 4 then 4 else if k == 5 then 5 else if k == 6 then 6 else 7
  }

  lemma ShiftOrder(i: nat, j: nat)
    requires i < 8 && j < 8
    ensures i < j ==> Shift(i) < Shift(j)
  {}

  function Xor(a: bv64, b: bv64): bv64 {
    a ^ b
  }

  lemma XorBytes0(a: bv64, b: bv64)
    ensures ByteV(Xor(a, b), 0) == 0 <==> ByteV(a, 0) == ByteV(b, 0)
    ensures ByteV(Xor(a, b), 1) == 0 <==> ByteV(a, 1) == ByteV(b, 1)
  {}

  lemma XorBytes2(a: bv64, b: bv64)
    ensures ByteV(Xor(a, b), 2) == 0 <==> ByteV(a, 2) == ByteV(b, 2)
    ensures ByteV(Xor(a, b), 3) == 0 <==> ByteV(a, 3) == ByteV(b, 3)
  {}

  lemma XorBytes4(a: bv64, b: bv64)
    ensures ByteV(Xor(a, b), 4) == 0 <==> ByteV(a, 4) == ByteV(b, 4)
    ensures ByteV(Xor(a, b), 5) == 0 <==> ByteV(a, 5) == ByteV(b, 5)
  {}

  lemma XorBytes6(a: bv64, b: bv64)
    ensures ByteV(Xor(a, b), 6) == 0 <==> ByteV(a, 6) == ByteV(b, 6)
    ensures ByteV(Xor(a, b), 7) == 0 <==> ByteV(a, 7) == ByteV(b, 7)
  {}

  lemma XorByteAt(a: bv64, b: bv64, k: nat)
    requires k < 8
    ensures ByteV(Xor(a, b), Shift(k)) == 0 <==> ByteV(a, Shift(k)) == ByteV(b, Shift(k))
  {
    hide ByteV, Xor;
    XorBytes0(a, b);
    XorBytes2(a, b);
    XorBytes4(a, b);
    XorBytes6(a, b);
    match k
    case 0 =>
    case 1 =>
    case 2 =>
    case 3 =>
    case 4 =>
    case 5 =>
    case 6 =>
    case _ =>
  }

  lemma SomeByte(x: bv64)
    ensures x == 0 <==> (ByteV(x, 0) == 0 && ByteV(x, 1) == 0 && ByteV(x, 2) == 0 && ByteV(x, 3) == 0
                         && ByteV(x, 4) == 0 && ByteV(x, 5) == 0 && ByteV(x, 6) == 0 && ByteV(x, 7) == 0)
  {}

  lemma SameBits(a: byte, b: byte)
    ensures ToBits(a) == ToBits(b) <==> a == b
  {
    hide ToBits, FromBits;
    ByteToBits(a);
    ByteToBits(b);
  }

  lemma LoadedAlike(s: seq<byte>, t: seq<byte>, k: nat)
    requires |s| == |t| == 8 && k < 8
    ensures ByteV(Xor(LoadWord(s), LoadWord(t)), Shift(k)) == 0 <==> s[k] == t[k]
  {
    hide ByteV, LoadWord, ToBits, FromBits, Shift, Xor;
    XorByteAt(LoadWord(s), LoadWord(t), k);
    LoadedByte(s, k);
    LoadedByte(t, k);
    SameBits(s[k], t[k]);
  }

  /** Index of the lowest byte of a word that is not zero. */
  function NbCommonBytes(val: bv64): (n: nat)
    requires val != 0
    ensures n < STEPSIZE
  {
    ZeroBytes(val, 0);
    Number(TrailingZeros(val) >> 3)
  }

  /** Of the exclusive or of two words it is the number of bytes they have in common. */
  lemma CommonBytes(s: seq<byte>, t: seq<byte>)
    requires |s| == |t| == 8
    ensures Xor(LoadWord(s), LoadWord(t)) == 0 <==> s == t
    ensures s != t ==> var n := NbCommonBytes(Xor(LoadWord(s), LoadWord(t))); s[..n] == t[..n] && s[n] != t[n]
  {
    hide ByteV, LoadWord, TrailingZeros, Shift, Number, Xor;
    var diff := Xor(LoadWord(s), LoadWord(t));
    forall k: nat | k < 8
      ensures ByteV(diff, Shift(k)) == 0 <==> s[k] == t[k]
    {
      LoadedAlike(s, t, k);
    }
    Shifts();
    SomeByte(diff);
    if diff != 0 {
      ZeroBytes(diff, 0);
      var n := NbCommonBytes(diff);
      ZeroBytes(diff, Shift(n));
      forall k | 0 <= k < n
        ensures s[k] == t[k]
      {
        ShiftOrder(k, n);
        ZeroBytes(diff, Shift(k));
      }
    }
  }

  lemma Shifts()
    ensures Shift(0) == 0 && Shift(1) == 1 && Shift(2) == 2 && Shift(3) == 3
    ensures Shift(4) == 4 && Shift(5) == 5 && Shift(6) == 6 && Shift(7) == 7
  {}

  lemma WordsAgree(source: seq<byte>, i: nat, m: nat, n: nat)
    requires m <= i && i + 8 <= |source| && n <= 8
    ensures source[i..i + 8][..n] == source[m..m + 8][..n] ==> Agree(source, i, m, n)
  {
    if source[i..i + 8][..n] == source[m..m + 8][..n] {
      forall p | i <= p < i + n
        ensures source[p] == source[p - (i - m)]
      {
        assert source[p] == source[i..i + 8][..n][p - i];
        assert source[p - (i - m)] == source[m..m + 8][..n][p - i];
      }
    }
  }

  method Count(source: seq<byte>, pIn0: nat, pMatch0: nat, limit: nat) returns (r: nat)
    requires pMatch0 < pIn0 <= limit <= |source|
    ensures CommonPrefix(source, pIn0, pMatch0, limit, r)
  {
    hide LoadWord, NbCommonBytes, Agree, Xor;
    var pIn, pMatch := pIn0, pMatch0;
    AgreeNone(source, pIn0, pMatch0);
    while pIn + (STEPSIZE - 1) < limit
      invariant pIn0 <= pIn <= limit && pIn - pMatch == pIn0 - pMatch0
      invariant Agree(source, pIn0, pMatch0, pIn - pIn0)
      decreases limit - pIn
    {
      var diff := Xor(LoadWord(source[pMatch..pMatch + STEPSIZE]), LoadWord(source[pIn..pIn + STEPSIZE]));
      CommonBytes(source[pMatch..pMatch + STEPSIZE], source[pIn..pIn + STEPSIZE]);
      ghost var n0 := pIn - pIn0;
      if diff == 0 {
        WordsAgree(source, pIn, pMatch, STEPSIZE);
        AgreeJoin(source, pIn0, pMatch0, n0, STEPSIZE);
        pIn, pMatch := pIn + STEPSIZE, pMatch + STEPSIZE;
      } else {
        var n := NbCommonBytes(diff);
        WordsAgree(source, pIn, pMatch, n);
        AgreeJoin(source, pIn0, pMatch0, n0, n);
        assert source[pIn..pIn + STEPSIZE][n] == source[pIn + n] && source[pMatch..pMatch + STEPSIZE][n] == source[pMatch + n];
        return pIn + n - pIn0;
      }
    }
    var n := CountTail(source, pIn, pMatch, limit);
    AgreeJoin(source, pIn0, pMatch0, pIn - pIn0, n);
    return pIn + n - pIn0;
  }

  /** The last, fewer than 8, bytes: by 4, by 2, by 1. */
  method CountTail(source: seq<byte>, pIn0: nat, pMatch0: nat, limit: nat) returns (r: nat)
    requires pMatch0 < pIn0 <= limit <= |source| && limit < pIn0 + STEPSIZE
    ensures CommonPrefix(source, pIn0, pMatch0, limit, r)
  {
    hide Agree, Same;
    var pIn, pMatch := pIn0, pMatch0;
    AgreeNone(source, pIn, pMatch);
    if pIn + 3 < limit && Same(source, pIn, pMatch, 4) {
      pIn, pMatch := pIn + 4, pMatch + 4;
    }
    ghost var n := pIn - pIn0;
    assert Agree(source, pIn0, pMatch0, n) && (pIn + 4 > limit || !Agree(source, pIn, pMatch, 4));
    if pIn + 1 < limit && Same(source, pIn, pMatch, 2) {
      AgreeJoin(source, pIn0, pMatch0, n, 2);
      if pIn + 4 <= limit { AgreeJoin(source, pIn, pMatch, 2, 2); }
      pIn, pMatch, n := pIn + 2, pMatch + 2, n + 2;
    }
    assert Agree(source, pIn0, pMatch0, n) && (pIn + 2 > limit || !Agree(source, pIn, pMatch, 2));
    if pIn < limit { AgreeOne(source, pIn, pMatch); }
    if pIn < limit && source[pMatch] == source[pIn] {
      AgreeJoin(source, pIn0, pMatch0, n, 1);
      if pIn + 2 <= limit {
        AgreeJoin(source, pIn, pMatch, 1, 1);
        AgreeOne(source, pIn + 1, pMatch + 1);
      }
      pIn, pMatch, n := pIn + 1, pMatch + 1, n + 1;
    }
    r := pIn - pIn0;
  }

  lemma AgreeNone(source: seq<byte>, i: nat, m: nat)
    requires m <= i <= |source|
    ensures Agree(source, i, m, 0)
  {}

  lemma AgreeOne(source: seq<byte>, i: nat, m: nat)
    requires m <= i < |source|
    ensures Agree(source, i, m, 1) <==> source[i] == source[m]
  {}

  lemma AgreeJoin(source: seq<byte>, i: nat, m: nat, a: nat, b: nat)
    requires m <= i && i + a + b <= |source|
    ensures Agree(source, i, m, a) && Agree(source, i + a, m + a, b) <==> Agree(source, i, m, a + b)
  {}

  /** The earlier position is too far away, or has other bytes. */
  predicate NoMatch(source: seq<byte>, ip: nat, ref: nat, tableType: TableType)
    requires ref < ip && ip + MINMATCH <= |source|
  {
    (tableType == ByU32 && ip > ref + MAX_DISTANCE) || !Agree(source, ip, ref, MINMATCH)
  }

  /** All tries before this one failed. */
  predicate NoneMatched(source: seq<byte>, start: nat, refs: seq<nat>, tableType: TableType) {
    forall k :: 0 <= k < |refs| ==>
      refs[k] < Probe(start, k) && Probe(start, k) + MFLIMIT <= |source| && NoMatch(source, Probe(start, k), refs[k], tableType)
  }

  /**
   The search: positions are tried in growing steps until one has an earlier position with the
   same 4 bytes in its hash slot, near enough to be referred to.  `refs` are the earlier
   positions that were looked at without success.  Nothing is found exactly if the next try
   would be too near to the end of the input.
   */
  method FindMatch(source: seq<byte>, table: array<nat>, tableType: TableType, hash: Hash, start: nat, startH: nat)
    returns (found: bool, ip: nat, ref: nat, ghost refs: seq<nat>)
    requires Positions(source, tableType) && HashFits(hash, table.Length) && startH < table.Length
    requires MFLIMIT < |source| && 1 <= start <= |source| - MFLIMIT + 1 && startH == hash(source[start..start + 8])
    requires EntriesBelow(table[..], start)
    modifies table
    ensures Search(source, old(table[..]), tableType, hash, start, 0) == if found then Hit(ip, ref, table[..]) else NoHit
    ensures found ==>
      && start <= ip && ip + MFLIMIT < |source|
      && ref < ip <= ref + MAX_DISTANCE && Agree(source, ip, ref, MINMATCH)
      && EntriesBelow(table[..], ip + 1)
    ensures NoneMatched(source, start, refs, tableType) && ip == Probe(start, |refs|)
    ensures found <==> Probe(start, |refs| + 1) + MFLIMIT <= |source|
  {
    hide Agree, Probe, Offers, Search, NoneMatched, NoMatch;
    var mflimit := |source| - MFLIMIT;
    var forwardIp: nat, forwardH: nat := start, startH;
    var step: nat, searchMatchNb: nat := 1, ACCELERATION_DEFAULT * SKIP_UNIT;
    ip, ref, refs := start, 0, [];
    NextProbe(start, 0);
    NoneTried(source, start, tableType);
    while true
      invariant start <= forwardIp && 1 <= step && searchMatchNb == SKIP_UNIT + |refs|
      invariant step == if refs == [] then 1 else (searchMatchNb - 1) / SKIP_UNIT
      invariant forwardIp == Probe(start, |refs|) && NoneMatched(source, start, refs, tableType)
      invariant forwardIp == start || forwardIp <= mflimit
      invariant forwardH < table.Length && forwardH == hash(source[forwardIp..forwardIp + 8])
      invariant Search(source, old(table[..]), tableType, hash, start, 0) == Search(source, table[..], tableType, hash, start, |refs|)
      invariant EntriesBelow(table[..], forwardIp)
      decreases mflimit + 1 - forwardIp
    {
      var h := forwardH;
      ip := forwardIp;
      forwardIp := forwardIp + step;
      NextProbe(start, |refs|);
      step := searchMatchNb / SKIP_UNIT;
      searchMatchNb := searchMatchNb + 1;
      if forwardIp > mflimit {
        NoTry(source, table[..], tableType, hash, start, |refs|);
        return false, ip, ref, refs;
      }
      var matched;
      matched, ref, forwardH := OneProbe(source, table, tableType, hash, start, |refs|, ip, forwardIp, h);
      if matched {
        return true, ip, ref, refs;
      }
      OneFailed(source, start, refs, tableType, ref);
      refs := refs + [ref];
    }
  }

  /** One try: what stands in the slot of `ip` is looked at, and `ip` put there instead. */
  method OneProbe(source: seq<byte>, table: array<nat>, tableType: TableType, hash: Hash, ghost start: nat, ghost k: nat,
                  ip: nat, forwardIp: nat, h: nat)
    returns (matched: bool, ref: nat, forwardH: nat)
    requires Positions(source, tableType) && HashFits(hash, table.Length) && h < table.Length
    requires ip == Probe(start, k) < forwardIp == Probe(start, k + 1) && forwardIp + MFLIMIT <= |source| && h == hash(source[ip..ip + 8])
    requires EntriesBelow(table[..], ip)
    modifies table
    ensures ref < ip && EntriesBelow(table[..], ip + 1) && forwardH == hash(source[forwardIp..forwardIp + 8]) < table.Length
    ensures Search(source, old(table[..]), tableType, hash, start, k)
            == if matched then Hit(ip, ref, table[..]) else Search(source, table[..], tableType, hash, start, k + 1)
    ensures matched <==> (tableType == ByU16 || ref + MAX_DISTANCE >= ip) && Same(source, ip, ref, 4)
    ensures matched ==> ip <= ref + MAX_DISTANCE && Agree(source, ip, ref, MINMATCH)
  {
    hide Agree, Probe, Search;
    ref := table[h];
    forwardH := HashPosition(hash, source, forwardIp, table.Length);
    assert ref == table[..][h];
    OneTry(source, table[..], tableType, hash, start, k);
    PutPositionOnHash(table, h, ip, tableType, source);
    matched := (tableType == ByU16 || ref + MAX_DISTANCE >= ip) && Same(source, ip, ref, 4);
  }

  lemma NoneTried(source: seq<byte>, start: nat, tableType: TableType)
    ensures NoneMatched(source, start, [], tableType)
  {}

  lemma OneFailed(source: seq<byte>, start: nat, refs: seq<nat>, tableType: TableType, ref: nat)
    requires NoneMatched(source, start, refs, tableType)
    requires var ip := Probe(start, |refs|);
             && ref < ip && ip + MFLIMIT <= |source|
             && !((tableType == ByU16 || ref + MAX_DISTANCE >= ip) && Same(source, ip, ref, 4))
    ensures NoneMatched(source, start, refs + [ref], tableType)
  {
    hide Agree, Probe;
  }

  lemma NoTry(source: seq<byte>, table: seq<nat>, tableType: TableType, hash: Hash, start: nat, k: nat)
    requires Probe(start, k + 1) + MFLIMIT > |source|
    ensures Search(source, table, tableType, hash, start, k) == NoHit
  {}

  lemma NextProbe(start: nat, k: nat)
    ensures Probe(start, 0) == start
    ensures Probe(start, k + 1) == Probe(start, k) + if k == 0 then 1 else (SKIP_UNIT + k - 1) / SKIP_UNIT
  {}

  /** One try of the search, with what stands in the slot. */
  lemma OneTry(source: seq<byte>, table: seq<nat>, tableType: TableType, hash: Hash, start: nat, k: nat)
    requires Positions(source, tableType) && Probe(start, k) < Probe(start, k + 1) <= |source| - MFLIMIT
    requires hash(source[Probe(start, k)..Probe(start, k) + 8]) < |table|
    requires table[hash(source[Probe(start, k)..Probe(start, k) + 8])] < Probe(start, k)
    ensures var ip := Probe(start, k);
            var h := hash(source[ip..ip + 8]);
            var ref := table[h];
            Search(source, table, tableType, hash, start, k)
            == if (tableType == ByU16 || ref + MAX_DISTANCE >= ip) && Same(source, ip, ref, 4) then Hit(ip, ref, table[h := ip])
               else Search(source, table[h := ip], tableType, hash, start, k + 1)
  {
    hide Probe, Agree;
  }

  /** Catch up: both positions move back while the bytes before them agree. */
  method CatchUp(source: seq<byte>, anchor: nat, ip0: nat, match0: nat, n: nat) returns (ip: nat, ref: nat)
    requires anchor <= ip0 && match0 < ip0 && ip0 + n <= |source| && Agree(source, ip0, match0, n)
    ensures anchor <= ip <= ip0 && ip - ref == ip0 - match0
    ensures Agree(source, ip, ref, ip0 - ip + n)
    ensures (ip, ref) == Back(source, anchor, ip0, match0)
  {
    ip, ref := ip0, match0;
    while ip > anchor && ref > 0 && source[ip - 1] == source[ref - 1]
      invariant anchor <= ip <= ip0 && ip - ref == ip0 - match0
      invariant Back(source, anchor, ip, ref) == Back(source, anchor, ip0, match0)
      invariant Agree(source, ip, ref, ip0 - ip + n)
    {
      ip, ref := ip - 1, ref - 1;
    }
  }
}
