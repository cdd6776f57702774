/** Slices of concatenations. */
module Sequences {

  /** A slice of a window is the same slice of what the window holds. */
  lemma Window<T>(src: seq<T>, ip: nat, e: seq<T>, i: nat, j: nat)
    requires ip + |e| <= |src| && src[ip..ip + |e|] == e && i <= j <= |e|
    ensures src[ip + i..ip + j] == e[i..j]
  {
    forall k | i <= k < j
      ensures src[ip + k] == e[k]
    {
      assert src[ip + k] == src[ip..ip + |e|][k];
    }
  }

  /** Where the parts of a concatenation lie when `src` holds it at `ip`. */
  lemma PartsAt<T>(src: seq<T>, ip: nat, a: seq<T>, b: seq<T>, c: seq<T>, d: seq<T>, e: seq<T>)
    requires ip + |a| + |b| + |c| + |d| + |e| <= |src|
    requires src[ip..ip + |a| + |b| + |c| + |d| + |e|] == a + b + c + d + e
    ensures var i := ip + |a|; var j := i + |b|; var k := j + |c|; var l := k + |d|; var m := l + |e|;
            src[ip..i] == a && src[i..j] == b && src[j..k] == c && src[k..l] == d && src[l..m] == e
  {
    var s := a + b + c + d + e;
    Parts5(a, b, c, d, e);
    var (i, j, k, l) := (|a|, |a| + |b|, |a| + |b| + |c|, |a| + |b| + |c| + |d|);
    Window(src, ip, s, 0, i);
    Window(src, ip, s, i, j);
    Window(src, ip, s, j, k);
    Window(src, ip, s, k, l);
    Window(src, ip, s, l, |s|);
  }

  lemma Parts5<T>(a: seq<T>, b: seq<T>, c: seq<T>, d: seq<T>, e: seq<T>)
    ensures var s := a + b + c + d + e;
            var (i, j, k, l) := (|a|, |a| + |b|, |a| + |b| + |c|, |a| + |b| + |c| + |d|);
            && |s| == l + |e|
            && s[..i] == a && s[i..j] == b && s[j..k] == c && s[k..l] == d && s[l..|s|] == e
  {}

  lemma Pieces6<T>(s: seq<T>, i: nat, j: nat, k: nat, l: nat, m: nat, n: nat)
    requires i <= j <= k <= l <= m <= n <= |s|
    ensures s[i..] == s[i..j] + s[j..k] + s[k..l] + s[l..m] + s[m..n] + s[n..]
  {}

  lemma Pieces3<T>(s: seq<T>, i: nat, j: nat, k: nat)
    requires i <= j <= k <= |s|
    ensures s[i..] == s[i..j] + s[j..k] + s[k..]
  {}

  lemma Split<T>(src: seq<T>, ip: nat, e: seq<T>, rest: seq<T>)
    requires ip <= |src| && src[ip..] == e + rest
    ensures ip + |e| <= |src| && src[ip..ip + |e|] == e && src[ip + |e|..] == rest
  {
    assert src[ip..ip + |e|] == src[ip..][..|e|];
    assert src[ip + |e|..] == src[ip..][|e|..];
  }
}
