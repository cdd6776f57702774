/** The copies of the decoder: 8 bytes at a time, overshooting, possibly overlapping. */
module Lz4Copy {
  import opened Bytes
  import opened Lz4Format

  // ---------- the byte-wise copy, by what it satisfies ----------

  /** From `start` on every byte repeats the one `offset` places before it. */
  predicate Repeats(s: seq<byte>, start: nat, offset: nat) {
    forall p :: start <= p < |s| && offset <= p ==> s[p] == s[p - offset]
  }

  lemma {:induction false} RepeatCopyRepeats(out: seq<byte>, offset: nat, length: nat)
    requires 1 <= offset <= |out|
    ensures var r := RepeatCopy(out, offset, length);
            r[..|out|] == out && Repeats(r, |out|, offset)
    decreases length
  {
    if length > 0 {
      var out' := out + [out[|out| - offset]];
      RepeatCopyRepeats(out', offset, length - 1);
      var r := RepeatCopy(out, offset, length);
      assert r[..|out'|][..|out|] == r[..|out|];
      assert r[|out|] == r[..|out'|][|out|] == out'[|out|];
      assert r[|out| - offset] == r[..|out'|][|out| - offset] == out'[|out| - offset];
    }
  }

  lemma {:induction false} RepeatsIsRepeatCopy(r: seq<byte>, start: nat, offset: nat)
    requires 1 <= offset <= start <= |r| && Repeats(r, start, offset)
    ensures r == RepeatCopy(r[..start], offset, |r| - start)
    decreases |r| - start
  {
    if start < |r| {
      RepeatsIsRepeatCopy(r, start + 1, offset);
      assert r[start] == r[start - offset] == r[..start][start - offset];
      assert r[..start + 1] == r[..start] + [r[start]];
    } else {
      assert r[..start] == r;
    }
  }

  /** `distance` is a sum of `offset`s. */
  predicate MultipleOf(distance: nat, offset: nat)
    requires 1 <= offset
  {
    distance == 0 || (offset <= distance && MultipleOf(distance - offset, offset))
  }

  lemma RepeatsPrefix(s: seq<byte>, n: nat, start: nat, offset: nat)
    requires n <= |s| && Repeats(s, start, offset)
    ensures Repeats(s[..n], start, offset)
  {
    forall p | start <= p < n && offset <= p
      ensures s[..n][p] == s[..n][p - offset]
    {
      assert s[p] == s[p - offset];
    }
  }

  /** Going back by a multiple of the offset finds the same byte, while the repetition lasts. */
  lemma {:induction false} GoBack(s: seq<byte>, start: nat, offset: nat, p: nat, distance: nat)
    requires 1 <= offset && MultipleOf(distance, offset)
    requires p < |s| && Repeats(s[..p + 1], start, offset)
    requires distance <= p && start + distance <= p + offset
    ensures s[p] == s[p - distance]
    decreases distance
  {
    if distance > 0 {
      assert s[..p + 1][p] == s[..p + 1][p - offset];
      assert s[..p + 1][..p - offset + 1] == s[..p - offset + 1];
      RepeatsPrefix(s[..p + 1], p - offset + 1, start, offset);
      GoBack(s, start, offset, p - offset, distance - offset);
    }
  }

  /**
   A copy over a longer distance continues the repetition, provided the distance is a multiple
   of the offset and no longer than the part that repeats already plus one offset.
   */
  lemma {:induction false} LongerDistance(s: seq<byte>, start: nat, middle: nat, offset: nat, distance: nat)
    requires 1 <= offset <= start <= middle <= |s| && offset <= distance
    requires MultipleOf(distance, offset) && start + distance <= middle + offset
    requires Repeats(s[..middle], start, offset) && Repeats(s, middle, distance) && distance <= middle
    ensures Repeats(s, start, offset)
    decreases |s|
  {
    if middle < |s| {
      var p := |s| - 1;
      assert s[..p][..middle] == s[..middle];
      RepeatsPrefix(s, p, middle, distance);
      LongerDistance(s[..p], start, middle, offset, distance);
      assert s[..p][..p - offset + 1] == s[..p - offset + 1];
      RepeatsPrefix(s[..p], p - offset + 1, start, offset);
      GoBack(s, start, offset, p - offset, distance - offset);
      assert s[p] == s[p - distance];
      forall q | start <= q < |s|
        ensures s[q] == s[q - offset]
      {
        if q < p { assert s[q] == s[..p][q] && s[q - offset] == s[..p][q - offset]; }
      }
    } else {
      assert s[..middle] == s;
    }
  }

  // ---------- the copies ----------

  /** Eight bytes loaded, then stored. */
  method Copy8(dest: array<byte>, d: nat, s: nat)
    requires d + 8 <= dest.Length && s + 8 <= dest.Length
    modifies dest
    ensures forall k :: d <= k < d + 8 ==> dest[k] == old(dest[k - d + s])
    ensures forall k :: 0 <= k < dest.Length && !(d <= k < d + 8) ==> dest[k] == old(dest[k])
  {
    forall k | 0 <= k < 8 { dest[d + k] := dest[s + k]; }
  }

  method Copy4(dest: array<byte>, d: nat, s: nat)
    requires d + 4 <= dest.Length && s + 4 <= dest.Length
    modifies dest
    ensures forall k :: d <= k < d + 4 ==> dest[k] == old(dest[k - d + s])
    ensures forall k :: 0 <= k < dest.Length && !(d <= k < d + 4) ==> dest[k] == old(dest[k])
  {
    forall k | 0 <= k < 4 { dest[d + k] := dest[s + k]; }
  }

  /**
   Copy inside the output up to `e`, in steps of 8 and at least one: up to 7 bytes beyond `e`
   are written.  Over a distance of 8 or more it is the byte-wise copy.
   */
  method WildCopyBack(dest: array<byte>, d: nat, s: nat, e: nat)
    requires s < d && d + 8 <= dest.Length && e + 7 <= dest.Length
    modifies dest
    ensures forall k :: 0 <= k < d ==> dest[k] == old(dest[k])
    ensures forall k :: 0 <= k < dest.Length && d + 8 <= k && e + 7 <= k ==> dest[k] == old(dest[k])
    ensures d - s >= 8 ==> forall p {:trigger dest[p]} :: d <= p < e ==> dest[p] == dest[p - (d - s)]
  {
    Copy8(dest, d, s);
    var i := d + 8;
    while i < e
      invariant d + 8 <= i && (i == d + 8 || i < e + 8)
      invariant forall k :: 0 <= k < d ==> dest[k] == old(dest[k])
      invariant forall k :: i <= k < dest.Length ==> dest[k] == old(dest[k])
      invariant d - s >= 8 ==> forall p {:trigger dest[p]} :: d <= p < i ==> dest[p] == dest[p - (d - s)]
    {
      Copy8(dest, i, i - (d - s));
      i := i + 8;
    }
  }

  /** Copy from the input up to `e`, in steps of 8 and at least one. */
  method WildCopyIn(dest: array<byte>, d: nat, src: seq<byte>, s: nat, e: nat)
    requires d <= e && d + 8 <= dest.Length && e + 7 <= dest.Length
    requires s + 8 <= |src| && s + (e - d) + 7 <= |src|
    modifies dest
    ensures forall k :: 0 <= k < d ==> dest[k] == old(dest[k])
    ensures forall k :: 0 <= k < dest.Length && d + 8 <= k && e + 7 <= k ==> dest[k] == old(dest[k])
    ensures dest[d..e] == src[s..s + (e - d)]
  {
    forall k | 0 <= k < 8 { dest[d + k] := src[s + k]; }
    var i := d + 8;
    while i < e
      invariant d + 8 <= i && (i == d + 8 || i < e + 8)
      invariant forall k :: 0 <= k < d ==> dest[k] == old(dest[k])
      invariant forall k :: i <= k < dest.Length ==> dest[k] == old(dest[k])
      invariant forall p :: d <= p < i && p - d + s < |src| ==> dest[p] == src[s + (p - d)]
    {
      forall k | 0 <= k < 8 { dest[i + k] := src[s + (i - d) + k]; }
      i := i + 8;
    }
  }

  // ---------- the overlapping match ----------

  const dec32table: seq<nat> := [4, 1, 2, 1, 4, 4, 4, 4]
  const dec64table: seq<int> := [0, 0, 0, -1, 0, 1, 2, 3]

  /** How far back the copy reads after its first 8 bytes. */
  function Distance(offset: nat): (d: nat)
    ensures 1 <= offset ==> 8 <= d && offset <= d <= 8 + offset
    ensures 1 <= offset < 8 ==> d < 8 + offset
    ensures 8 <= offset ==> d == offset
  {
    if offset < 8 then 8 + offset - dec32table[offset] + dec64table[offset] else offset
  }

  lemma DistanceIsMultiple(offset: nat)
    requires 1 <= offset
    ensures MultipleOf(Distance(offset), offset)
  {
    if offset >= 8 {
      assert MultipleOf(0, offset);
    } else {
      assert MultipleOf(8, 1);
      assert MultipleOf(8, 2);
      assert MultipleOf(9, 3);
      assert MultipleOf(8, 4);
      assert MultipleOf(10, 5);
      assert MultipleOf(12, 6);
      assert MultipleOf(14, 7);
    }
  }

  /** The first 8 bytes of a match; `m` is where the copy goes on reading. */
  method CopyPrologue(dest: array<byte>, op: nat, offset: nat) returns (m: nat)
    requires offset <= op && op + 8 <= dest.Length
    modifies dest
    ensures m < op + 8 && op + 8 - m == Distance(offset)
    ensures forall k :: 0 <= k < dest.Length && !(op <= k < op + 8) ==> dest[k] == old(dest[k])
    ensures 1 <= offset ==> Repeats(dest[..op + 8], op, offset)
  {
    var ref := op - offset;
    if op - ref < 8 {
      var dec64 := dec64table[op - ref];
      dest[op] := dest[ref];
      dest[op + 1] := dest[ref + 1];
      dest[op + 2] := dest[ref + 2];
      dest[op + 3] := dest[ref + 3];
      ref := ref + dec32table[op - ref];
      CopySecondFour(dest, op, offset, ref);
      m := ref - dec64;
    } else {
      Copy8(dest, op, ref);
      m := ref + 8;
    }
  }

  method CopySecondFour(dest: array<byte>, op: nat, offset: nat, ref: nat)
    requires offset < 8 && offset <= op && op + 8 <= dest.Length && ref == op - offset + dec32table[offset]
    requires forall k :: op <= k < op + 4 && 1 <= offset ==> dest[k] == dest[k - offset]
    modifies dest
    ensures forall k :: 0 <= k < dest.Length && !(op + 4 <= k < op + 8) ==> dest[k] == old(dest[k])
    ensures forall k :: op <= k < op + 8 && 1 <= offset ==> dest[k] == dest[k - offset]
  {
    Copy4(dest, op + 4, ref);
    assert 1 <= offset ==> dest[op + 4] == dest[op + 4 - offset] && dest[op + 5] == dest[op + 5 - offset];
    assert 1 <= offset ==> dest[op + 6] == dest[op + 6 - offset] && dest[op + 7] == dest[op + 7 - offset];
  }

  /** The rest of a match up to `cpy`, read `distance` back, without touching `oend` or beyond. */
  method CopyRest(dest: array<byte>, op: nat, m: nat, cpy: nat, oend: nat)
    requires m < op <= cpy + 4 && op + 4 <= oend <= dest.Length && cpy + LASTLITERALS <= oend
    modifies dest
    ensures forall k :: 0 <= k < op ==> dest[k] == old(dest[k])
    ensures forall k :: oend <= k < dest.Length ==> dest[k] == old(dest[k])
    ensures op - m >= 8 ==> forall p {:trigger dest[p]} :: op <= p < cpy ==> dest[p] == dest[p - (op - m)]
  {
    if cpy > oend - 12 {
      var o, ref := op, m;
      if o < oend - 8 {
        WildCopyBack(dest, o, ref, oend - 8);
        ref := ref + (oend - 8 - o);
        o := oend - 8;
      }
      while o < cpy
        invariant op <= o <= oend && o - ref == op - m
        invariant forall k :: 0 <= k < op ==> dest[k] == old(dest[k])
        invariant forall k :: oend <= k < dest.Length ==> dest[k] == old(dest[k])
        invariant op - m >= 8 ==> forall p {:trigger dest[p]} :: op <= p < o && p < cpy ==> dest[p] == dest[p - (op - m)]
      {
        dest[o] := dest[ref];
        o, ref := o + 1, ref + 1;
      }
    } else {
      WildCopyBack(dest, op, m, cpy);
    }
  }

  /**
   The copy of one match.  It is refused when it would reach the last LASTLITERALS bytes of
   the output; otherwise, for every offset but 0, it is the byte-wise copy.
   */
  method CopyMatch(dest: array<byte>, op: nat, offset: nat, length: nat, oend: nat) returns (ok: bool)
    requires offset <= op && op + MFLIMIT <= oend <= dest.Length && MINMATCH <= length
    modifies dest
    ensures ok <==> op + length + LASTLITERALS <= oend
    ensures dest[..op] == old(dest[..op]) && dest[oend..] == old(dest[oend..])
    ensures ok && 1 <= offset ==> dest[..op + length] == RepeatCopy(old(dest[..op]), offset, length)
  {
    hide RepeatCopy, Repeats, Distance;
    var cpy := op + length;
    ghost var before := dest[..op];
    var m := CopyPrologue(dest, op, offset);
    if cpy > oend - 12 && cpy > oend - LASTLITERALS {
      return false;
    }
    ghost var first := dest[..op + 8];
    CopyRest(dest, op + 8, m, cpy, oend);
    assert dest[..op + 8] == first;
    assert dest[..op] == before;
    if 1 <= offset {
      if op + 8 <= cpy { RepeatsOver(dest[..], op + 8, Distance(offset), cpy); }
      CopiedIsRepeatCopy(dest[..], op, offset, cpy);
      assert dest[..][..cpy] == dest[..cpy] && dest[..][..op] == before;
    }
    return true;
  }

  lemma RepeatsOver(s: seq<byte>, start: nat, distance: nat, cpy: nat)
    requires start <= cpy <= |s| && distance <= start
    requires forall p {:trigger s[p]} :: start <= p < cpy ==> s[p] == s[p - distance]
    ensures Repeats(s[..cpy], start, distance)
  {}

  lemma CopiedIsRepeatCopy(s: seq<byte>, op: nat, offset: nat, cpy: nat)
    requires 1 <= offset <= op <= cpy <= |s| && op + 8 <= |s|
    requires Repeats(s[..op + 8], op, offset)
    requires op + 8 <= cpy ==> Repeats(s[..cpy], op + 8, Distance(offset))
    ensures s[..cpy] == RepeatCopy(s[..op], offset, cpy - op)
  {
    hide Distance, MultipleOf, RepeatCopy, Repeats;
    if cpy <= op + 8 {
      RepeatsPrefix(s[..op + 8], cpy, op, offset);
      assert s[..op + 8][..cpy] == s[..cpy];
    } else {
      DistanceIsMultiple(offset);
      assert s[..cpy][..op + 8] == s[..op + 8];
      LongerDistance(s[..cpy], op, op + 8, offset, Distance(offset));
    }
    RepeatsIsRepeatCopy(s[..cpy], op, offset);
    assert s[..cpy][..op] == s[..op];
  }
}
