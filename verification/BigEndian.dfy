/** Big-endian integers, as the block headers and the index and data files have them. */
module BigEndian {
  import opened Bytes
  import Matrix

  function FromBE(s: seq<byte>): nat {
    if s == [] then 0 else FromBE(s[..|s| - 1]) * 256 + s[|s| - 1] as nat
  }

  /** The last `k` base 256 digits of `n`. */
  function BE(n: nat, k: nat): (s: seq<byte>)
    ensures |s| == k
  {
    if k == 0 then [] else BE(n / 256, k - 1) + [(n % 256) as byte]
  }

  function Pow256(k: nat): (p: nat)
    ensures p > 0
  {
    if k == 0 then 1 else 256 * Pow256(k - 1)
  }

  lemma Pow256Values()
    ensures Pow256(1) == 0x100 && Pow256(2) == 0x1_0000 && Pow256(4) == 0x1_0000_0000
    ensures Pow256(8) == 0x1_0000_0000_0000_0000
  {
    assert Pow256(3) == 0x100_0000;
    assert Pow256(6) == 0x1_0000_0000_0000;
    assert Pow256(7) == 0x100_0000_0000_0000;
  }

  /** Digit `i` from the front is worth a power of 256 for each of the digits behind it. */
  lemma {:induction false} DigitAt(n: nat, k: nat, i: nat)
    requires i < k
    ensures BE(n, k)[i] as nat == n / Pow256(k - 1 - i) % 256
    decreases k
  {
    if i < k - 1 {
      DigitAt(n / 256, k - 1, i);
      DividedTwice(n, Pow256(k - 2 - i));
      assert Pow256(k - 1 - i) == 256 * Pow256(k - 2 - i);
    } else {
      assert Pow256(0) == 1;
    }
  }

  lemma DividedTwice(n: nat, p: nat)
    requires p > 0
    ensures n / (256 * p) == n / 256 / p
  {
    var q := n / 256 / p;
    var (a, b) := (n / 256 % p, n % 256);
    assert n == 256 * (q * p + a) + b;
    assert 256 * (q * p + a) + b == q * (256 * p) + (256 * a + b);
    assert 0 <= 256 * a + b < 256 * p;
    Matrix.AtSplit(q, 256 * p, 256 * a + b);
  }

  /** Four bytes, with their weights. */
  lemma FourBytes(s: seq<byte>)
    requires |s| == 4
    ensures FromBE(s) == 0x100_0000 * (s[0] as nat) + 0x1_0000 * (s[1] as nat) + 0x100 * (s[2] as nat) + s[3] as nat
  {
    var (a, b, c) := (s[..3], s[..2], s[..1]);
    assert a[..2] == b && b[..1] == c && c[..0] == [];
    assert FromBE(c) == s[0] as nat;
    assert FromBE(b) == FromBE(c) * 256 + s[1] as nat;
    assert FromBE(a) == FromBE(b) * 256 + s[2] as nat;
  }

  /** What is written is read again. */
  lemma {:induction false} ReadWritten(n: nat, k: nat)
    requires n < Pow256(k)
    ensures FromBE(BE(n, k)) == n
  {
    if k > 0 {
      assert n / 256 < Pow256(k - 1);
      ReadWritten(n / 256, k - 1);
      assert BE(n, k)[..k - 1] == BE(n / 256, k - 1);
    }
  }

  /** What is read is in range, and would be written the same. */
  lemma {:induction false} WrittenRead(s: seq<byte>)
    ensures FromBE(s) < Pow256(|s|) && BE(FromBE(s), |s|) == s
  {
    if s != [] { WrittenRead(s[..|s| - 1]); }
  }

  /** Writes a 32 bit number, last digit first. */
  method WriteUint32BE(buf: array<byte>, at: nat, value: nat)
    requires at + 4 <= buf.Length && value < 0x1_0000_0000
    modifies buf
    ensures buf[at..at + 4] == BE(value, 4)
    ensures forall k :: 0 <= k < buf.Length && !(at <= k < at + 4) ==> buf[k] == old(buf[k])
  {
    var num := value;
    var ii := 3;
    while ii >= 0
      invariant -1 <= ii <= 3
      invariant BE(num, ii + 1) + buf[at + ii + 1..at + 4] == BE(value, 4)
      invariant forall k :: 0 <= k < buf.Length && !(at <= k < at + 4) ==> buf[k] == old(buf[k])
    {
      ghost var (digits, done) := (BE(num, ii + 1), buf[at + ii + 1..at + 4]);
      buf[at + ii] := (num % 256) as byte;
      num := num / 256;
      assert digits + done == BE(num, ii) + buf[at + ii..at + 4] by {
        assert buf[at + ii..at + 4] == [buf[at + ii]] + done;
        assert digits == BE(num, ii) + [buf[at + ii]];
      }
      ii := ii - 1;
    }
    assert buf[at..at + 4] == BE(num, 0) + buf[at..at + 4];
  }

  lemma FromBEStep(s: seq<byte>, i: nat, cp: nat)
    requires i < |s|
    ensures cp * FromBE(s[..i + 1]) == s[i] as nat * cp + (cp * 256) * FromBE(s[..i])
  {
    assert s[..i + 1][..i] == s[..i];
    var f := FromBE(s[..i]);
    assert cp * (f * 256 + s[i] as nat) == cp * (f * 256) + cp * s[i] as nat;
    assert cp * (f * 256) == (cp * 256) * f;
  }

  /** Reads a 32 bit number, last digit first. */
  method ReadUint32BE(buf: seq<byte>, at: nat) returns (num: nat)
    requires at + 4 <= |buf|
    ensures num == FromBE(buf[at..at + 4]) && num < 0x1_0000_0000
  {
    ghost var s := buf[at..at + 4];
    num := 0;
    var cp: nat := 1;
    var ii := 3;
    assert s[..4] == s;
    while ii >= 0
      invariant -1 <= ii <= 3
      invariant num + cp * FromBE(s[..ii + 1]) == FromBE(s)
    {
      FromBEStep(s, ii, cp);
      num := num + buf[at + ii] as nat * cp;
      cp := cp * 256;
      ii := ii - 1;
    }
    assert FromBE(s[..0]) == 0;
    WrittenRead(s);
    Pow256Values();
  }
}
