/** One block through the stack: shuffled and compressed with a length in front, or the way back. */
module Blocks {
  import opened Bytes
  import opened BigEndian
  import opened BitTranspose
  import opened Lz4Format
  import opened Lz4Encoder
  import opened Lz4Decoder
  import opened Lz4RoundTrip
  import opened SerialChain
  import BitshuffleScalar
  import BitshuffleSse
  import BitshuffleAvx

  // ---------- drivers ----------

  /** The instruction set chosen at compile time. */
  datatype Isa = Scalar | Sse | Avx

  /** Whatever the instruction set, the output is the same. */
  method TransBitElem(isa: Isa, input: seq<byte>, out: array<byte>, size: nat, elem: nat) returns (r: int)
    requires |input| == out.Length == size * elem
    modifies out
    ensures size % 8 != 0 ==> r == -80 && out[..] == old(out[..])
    ensures size % 8 == 0 ==>
      r == size * elem && IsBlock(input, size / 8, elem) && out[..] == Shuffled(input, size / 8, elem)
  {
    hide *;
    match isa
    case Avx => r := BitshuffleAvx.TransBitElemAvx(input, out, size, elem);
    case Sse => r := BitshuffleSse.TransBitElemSse(input, out, size, elem);
    case Scalar => r := BitshuffleScalar.TransBitElemScal(input, out, size, elem);
  }

  method UntransBitElem(isa: Isa, input: seq<byte>, out: array<byte>, size: nat, elem: nat) returns (r: int)
    requires |input| == out.Length == size * elem
    modifies out
    ensures size % 8 != 0 ==> r == -80 && out[..] == old(out[..])
    ensures size % 8 == 0 ==>
      r == size * elem && IsBlock(input, size / 8, elem) && out[..] == Unshuffled(input, size / 8, elem)
  {
    hide *;
    match isa
    case Avx => r := BitshuffleAvx.UntransBitElemAvx(input, out, size, elem);
    case Sse => r := BitshuffleSse.UntransBitElemSse(input, out, size, elem);
    case Scalar => r := BitshuffleScalar.UntransBitElemScal(input, out, size, elem);
  }

  // ---------- what a block call means ----------

  /** The conversion to `int` that the codec's size arguments go through. */
  function Int32(n: nat): (i: int)
    ensures -0x8000_0000 <= i < 0x8000_0000 && i <= n
    ensures i == n <==> n < 0x8000_0000
    ensures (n - i) % 0x1_0000_0000 == 0
  {
    var m := n % 0x1_0000_0000;
    if m < 0x8000_0000 then m else m - 0x1_0000_0000
  }

  /** The compressor works on a block of `n` bytes, though perhaps not on all of it. */
  predicate Supported(n: nat) {
    0 <= Int32(n) <= LZ4_MAX_INPUT_SIZE
  }

  function CompressBound32(n: nat): nat {
    if Supported(n) then CompressBound(Int32(n)) else 0
  }

  /** What the compressor makes of a shuffled block. */
  ghost predicate IsPacked(z: seq<byte>, shuffled: seq<byte>) {
    if Supported(|shuffled|) then IsCompressed(z, shuffled[..Int32(|shuffled|)]) else z == []
  }

  /** The decompressor is satisfied with `z` as the form of `n` bytes. */
  predicate Accepts(z: seq<byte>, n: nat) {
    && Int32(n) == n
    && ParseBlock(z, n).Some? && BlockLength(ParseBlock(z, n).value) == n
  }

  /** What the decompressor makes of `z`; nothing is said if a reference in it goes nowhere. */
  ghost predicate IsUnpacked(z: seq<byte>, shuffled: seq<byte>) {
    && Accepts(z, |shuffled|)
    && var b := ParseBlock(z, |shuffled|).value;
    Resolvable(b.sequences) ==> shuffled == Meaning(b)
  }

  /** A length of four bytes and as many bytes. */
  predicate IsFrame(s: seq<byte>) {
    |s| >= 4 && FromBE(s[..4]) == |s| - 4
  }

  /** The functions a buffer is processed with block by block. */
  datatype BlockFun = CompressLz4 | DecompressLz4 | Bitshuffle | Bitunshuffle

  /** How much of the output it may take. */
  function Room(fun: BlockFun, w: nat, elem: nat): nat {
    if fun == CompressLz4 then CompressBound32(8 * w * elem) + 4 else 8 * w * elem
  }

  /** A block call that succeeds turns `i` into `o`. */
  ghost predicate Done(fun: BlockFun, i: seq<byte>, o: seq<byte>, w: nat, elem: nat) {
    match fun
    case CompressLz4 => IsBlock(i, w, elem) && IsFrame(o) && IsPacked(o[4..], Shuffled(i, w, elem)) && |o| <= Room(fun, w, elem)
    case DecompressLz4 => IsBlock(o, w, elem) && IsFrame(i) && IsUnpacked(i[4..], Shuffled(o, w, elem))
    case Bitshuffle => IsBlock(i, w, elem) && o == Shuffled(i, w, elem)
    case Bitunshuffle => IsBlock(i, w, elem) && o == Unshuffled(i, w, elem)
  }

  /** When it succeeds. */
  predicate Succeeds(fun: BlockFun, i: seq<byte>, w: nat, elem: nat) {
    fun == DecompressLz4 ==> IsFrame(i) && Accepts(i[4..], 8 * w * elem)
  }

  /** How much of the input it takes. */
  function Extent(fun: BlockFun, input: seq<byte>, pos: nat, w: nat, elem: nat): nat {
    if fun != DecompressLz4 then 8 * w * elem
    else if pos + 4 <= |input| then 4 + FromBE(input[pos..pos + 4]) else 4
  }

  /** The input is there; the length in front of a frame is read as a signed number. */
  predicate Readable(fun: BlockFun, input: seq<byte>, pos: nat, w: nat, elem: nat) {
    && pos + Extent(fun, input, pos, w, elem) <= |input|
    && (fun == DecompressLz4 ==> Extent(fun, input, pos, w, elem) < 0x8000_0004)
  }

  lemma FrameAt(input: seq<byte>, pos: nat)
    requires pos + 4 <= |input| && pos + 4 + FromBE(input[pos..pos + 4]) <= |input|
    ensures var n := FromBE(input[pos..pos + 4]); var f := input[pos..pos + 4 + n];
            IsFrame(f) && f[4..] == input[pos + 4..pos + 4 + n]
  {
    var f := input[pos..pos + 4 + FromBE(input[pos..pos + 4])];
    assert f[..4] == input[pos..pos + 4];
  }

  // ---------- the block functions ----------

  /** What compressing a block in the work buffers gives. */
  method Pack(isa: Isa, input: seq<byte>, w: nat, elem: nat) returns (z: seq<byte>)
    requires IsBlock(input, w, elem)
    ensures IsPacked(z, Shuffled(input, w, elem)) && |z| <= CompressBound32(8 * w * elem)
  {
    hide IsCompressed, Shuffled;
    var bytes := 8 * w * elem;
    var shuffled := new byte[bytes];
    var _ := TransBitElem(isa, input, shuffled, 8 * w, elem);
    assert 8 * w / 8 == w;
    var buf := new byte[CompressBound32(bytes)];
    if !Supported(bytes) { return []; }
    var nbytes := Compress(shuffled[..Int32(bytes)], buf);
    z := buf[..nbytes];
  }

  /** A form too short to be told from the bytes after it is refused whatever those are. */
  predicate Truncated(z: seq<byte>) {
    z == [] || (|z| == 1 && z[0] >= 0xF0)
  }

  /** The safe decoder called with sizes converted to `int`. */
  method Decode(z: seq<byte>, out: array<byte>) returns (r: int)
    requires 0 < out.Length
    modifies out
    ensures r >= 0 ==> r <= out.Length
    ensures r == out.Length <==> Accepts(z, out.Length)
    ensures r == out.Length ==> IsUnpacked(z, out[..])
  {
    hide Parse, Meaning, Resolvable, BlockLength;
    var max := Int32(out.Length);
    if Truncated(z) && max != 0 {
      TooShort(z, out.Length);
      var looked :| 1 <= looked <= 2;
      return -looked - 1;
    }
    if max < 0 { return -1; }
    r := DecompressSafe(z, out, max);
    if max == out.Length { assert r == max ==> out[..r] == out[..]; }
  }

  /** What decompressing and unshuffling a frame's bytes gives; `r` is negative if they are refused. */
  method Unpack(isa: Isa, z: seq<byte>, w: nat, elem: nat) returns (r: int, raw: seq<byte>)
    requires 0 < w && 0 < elem
    ensures r >= 0 <==> Accepts(z, 8 * w * elem)
    ensures r >= 0 ==> r == |z| && IsBlock(raw, w, elem) && IsUnpacked(z, Shuffled(raw, w, elem))
  {
    hide Accepts, IsUnpacked, Shuffled, Unshuffled;
    raw := [];
    var bytes := 8 * w * elem;
    assert 0 < bytes by { assert 8 * elem <= 8 * w * elem; }
    var tmp := new byte[bytes];
    var nbytes := Decode(z, tmp);
    if nbytes < 0 { return nbytes - 1000, []; }
    if nbytes != bytes { return -91, []; }
    var out := new byte[bytes];
    assert 8 * w / 8 == w;
    var _ := UntransBitElem(isa, tmp[..], out, 8 * w, elem);
    ShuffleUnshuffled(tmp[..], w, elem);
    return |z|, out[..];
  }

  /** memcpy to a place of the output. */
  method CopyTo(out: array<byte>, at: nat, s: seq<byte>)
    requires at + |s| <= out.Length
    modifies out
    ensures out[at..at + |s|] == s
    ensures forall k :: 0 <= k < out.Length && !(at <= k < at + |s|) ==> out[k] == old(out[k])
  {
    forall k | 0 <= k < |s| { out[at + k] := s[k]; }
  }

  method CompressLz4Block(isa: Isa, c: Chain, input: seq<byte>, out: array<byte>, w: nat, elem: nat) returns (r: int)
    requires c.Valid() && Readable(CompressLz4, input, c.In(), w, elem) && c.Out() + Room(CompressLz4, w, elem) <= out.Length
    modifies c, c.inPl, c.outPl, out
    ensures c.Valid() && c.In() == old(c.In()) + 8 * w * elem && r >= 4 && c.Out() == old(c.Out()) + r <= out.Length
    ensures r <= Room(CompressLz4, w, elem)
    ensures Done(CompressLz4, input[old(c.In())..c.In()], out[old(c.Out())..c.Out()], w, elem)
    ensures forall k :: 0 <= k < out.Length && !(old(c.Out()) <= k < c.Out()) ==> out[k] == old(out[k])
  {
    hide IsPacked, Shuffled, CompressBound32, BE, FromBE;
    var iter, at := c.GetIn();
    c.SetNextIn(iter, at + 8 * w * elem);
    var z := Pack(isa, input[at..at + 8 * w * elem], w, elem);
    PackedSize(8 * w * elem);
    var q := c.GetOut(iter);
    c.SetNextOut(iter, q + |z| + 4);
    WriteUint32BE(out, q, |z|);
    CopyTo(out, q + 4, z);
    Header(out[q..q + |z| + 4], z);
    return |z| + 4;
  }

  lemma PackedSize(n: nat)
    ensures CompressBound32(n) < 0x8000_0000
  {}

  lemma Header(f: seq<byte>, z: seq<byte>)
    requires |z| < 0x8000_0000 && |f| == |z| + 4 && f[..4] == BE(|z|, 4) && f[4..] == z
    ensures IsFrame(f)
  {
    Pow256Values();
    ReadWritten(|z|, 4);
  }

  method DecompressLz4Block(isa: Isa, c: Chain, input: seq<byte>, out: array<byte>, w: nat, elem: nat) returns (r: int)
    requires c.Valid() && 0 < w && 0 < elem
    requires Readable(DecompressLz4, input, c.In(), w, elem) && c.Out() + 8 * w * elem <= out.Length
    modifies c, c.inPl, c.outPl, out
    ensures c.Valid() && c.In() == old(c.In() + Extent(DecompressLz4, input, c.In(), w, elem))
    ensures c.Out() == old(c.Out()) + 8 * w * elem
    ensures r >= 0 <==> Succeeds(DecompressLz4, input[old(c.In())..c.In()], w, elem)
    ensures r >= 0 ==> r == c.In() - old(c.In())
    ensures r >= 0 ==> Done(DecompressLz4, input[old(c.In())..c.In()], out[old(c.Out())..c.Out()], w, elem)
    ensures forall k :: 0 <= k < out.Length && !(old(c.Out()) <= k < c.Out()) ==> out[k] == old(out[k])
  {
    hide IsUnpacked, Accepts, Shuffled, FromBE, IsFrame;
    var iter, at := c.GetIn();
    var n := ReadUint32BE(input, at);
    c.SetNextIn(iter, at + n + 4);
    var q := c.GetOut(iter);
    c.SetNextOut(iter, q + 8 * w * elem);
    FrameAt(input, at);
    var raw;
    r, raw := Unpack(isa, input[at + 4..at + 4 + n], w, elem);
    if r < 0 { return; }
    CopyTo(out, q, raw);
    r := r + 4;
  }

  method BitshuffleBlock(isa: Isa, c: Chain, input: seq<byte>, out: array<byte>, w: nat, elem: nat) returns (r: int)
    requires c.Valid() && Readable(Bitshuffle, input, c.In(), w, elem) && c.Out() + 8 * w * elem <= out.Length
    modifies c, c.inPl, c.outPl, out
    ensures c.Valid() && c.In() == old(c.In()) + 8 * w * elem && r == 8 * w * elem && c.Out() == old(c.Out()) + r
    ensures Done(Bitshuffle, input[old(c.In())..c.In()], out[old(c.Out())..c.Out()], w, elem)
    ensures forall k :: 0 <= k < out.Length && !(old(c.Out()) <= k < c.Out()) ==> out[k] == old(out[k])
  {
    hide Shuffled;
    var bytes := 8 * w * elem;
    var at, q := c.Claim(bytes, bytes);
    var part := new byte[bytes];
    assert 8 * w / 8 == w;
    r := TransBitElem(isa, input[at..at + bytes], part, 8 * w, elem);
    CopyTo(out, q, part[..]);
  }

  method BitunshuffleBlock(isa: Isa, c: Chain, input: seq<byte>, out: array<byte>, w: nat, elem: nat) returns (r: int)
    requires c.Valid()
    requires Readable(Bitunshuffle, input, c.In(), w, elem) && c.Out() + 8 * w * elem <= out.Length
    modifies c, c.inPl, c.outPl, out
    ensures c.Valid() && c.In() == old(c.In()) + 8 * w * elem && r == 8 * w * elem && c.Out() == old(c.Out()) + r
    ensures Done(Bitunshuffle, input[old(c.In())..c.In()], out[old(c.Out())..c.Out()], w, elem)
    ensures forall k :: 0 <= k < out.Length && !(old(c.Out()) <= k < c.Out()) ==> out[k] == old(out[k])
  {
    hide Unshuffled;
    var bytes := 8 * w * elem;
    var at, q := c.Claim(bytes, bytes);
    var part := new byte[bytes];
    assert 8 * w / 8 == w;
    r := UntransBitElem(isa, input[at..at + bytes], part, 8 * w, elem);
    CopyTo(out, q, part[..]);
  }

  /** The call through the function pointer. */
  method CallBlock(fun: BlockFun, isa: Isa, c: Chain, input: seq<byte>, out: array<byte>, w: nat, elem: nat) returns (r: int)
    requires c.Valid() && 0 < w && 0 < elem
    requires Readable(fun, input, c.In(), w, elem) && c.Out() + Room(fun, w, elem) <= out.Length
    modifies c, c.inPl, c.outPl, out
    ensures c.Valid() && c.In() == old(c.In() + Extent(fun, input, c.In(), w, elem))
    ensures old(c.Out()) <= c.Out() <= old(c.Out()) + Room(fun, w, elem)
    ensures r >= 0 <==> Succeeds(fun, input[old(c.In())..c.In()], w, elem)
    ensures r >= 0 ==> r == if fun == DecompressLz4 then c.In() - old(c.In()) else c.Out() - old(c.Out())
    ensures r >= 0 ==> Done(fun, input[old(c.In())..c.In()], out[old(c.Out())..c.Out()], w, elem)
    ensures forall k :: 0 <= k < out.Length && !(old(c.Out()) <= k < c.Out()) ==> out[k] == old(out[k])
  {
    hide Done, Accepts, IsFrame;
    match fun
    case CompressLz4 => r := CompressLz4Block(isa, c, input, out, w, elem);
    case DecompressLz4 => r := DecompressLz4Block(isa, c, input, out, w, elem);
    case Bitshuffle => r := BitshuffleBlock(isa, c, input, out, w, elem);
    case Bitunshuffle => r := BitunshuffleBlock(isa, c, input, out, w, elem);
  }

  /** A block that was compressed whole is accepted and gives back what it was made of; one that was not is refused. */
  lemma BlockRoundTrip(raw: seq<byte>, frame: seq<byte>, w: nat, elem: nat)
    requires 0 < w && 0 < elem && Done(CompressLz4, raw, frame, w, elem)
    ensures Succeeds(DecompressLz4, frame, w, elem) <==> |raw| <= LZ4_MAX_INPUT_SIZE
    ensures |raw| <= LZ4_MAX_INPUT_SIZE ==>
      forall back :: Done(DecompressLz4, frame, back, w, elem) ==> back == raw
  {
    hide Shuffled, IsPacked, IsUnpacked, Accepts, FromBE, CompressBound32;
    PositiveBytes(w, elem);
    PackedIsAccepted(frame[4..], Shuffled(raw, w, elem));
    if |raw| <= LZ4_MAX_INPUT_SIZE {
      forall back | Done(DecompressLz4, frame, back, w, elem)
        ensures back == raw
      {
        BlockBack(raw, frame, back, w, elem);
      }
    }
  }

  lemma PositiveBytes(w: nat, elem: nat)
    requires 0 < w && 0 < elem
    ensures 0 < 8 * w * elem
  {}

  lemma BlockBack(raw: seq<byte>, frame: seq<byte>, back: seq<byte>, w: nat, elem: nat)
    requires Done(CompressLz4, raw, frame, w, elem) && Done(DecompressLz4, frame, back, w, elem) && |raw| <= LZ4_MAX_INPUT_SIZE
    ensures back == raw
  {
    hide Shuffled, Unshuffled, IsPacked, IsUnpacked, IsFrame, CompressBound32, FromBE, Accepts;
    assert 4 <= |frame| by { FrameLength(frame); }
    UnpackedIsPacked(frame[4..], Shuffled(raw, w, elem), Shuffled(back, w, elem));
    UnshuffleShuffled(raw, w, elem);
    UnshuffleShuffled(back, w, elem);
  }

  lemma FrameLength(s: seq<byte>)
    requires IsFrame(s)
    ensures 4 <= |s|
  {}

  /** The decompressor accepts a packed block exactly when its size is one the compressor handles. */
  lemma PackedIsAccepted(z: seq<byte>, shuffled: seq<byte>)
    requires IsPacked(z, shuffled) && 0 < |shuffled|
    ensures Accepts(z, |shuffled|) <==> |shuffled| <= LZ4_MAX_INPUT_SIZE
  {
    hide Parse, Meaning, Resolvable, IsCompressed, IsCompressedAs;
    var n := |shuffled|;
    if n <= LZ4_MAX_INPUT_SIZE {
      var b := CompressedIsRead(z, shuffled[..n], n);
      assert |Meaning(b)| == BlockLength(b);
    } else if !Supported(n) {
      TooShort(z, n);
    }
  }

  lemma UnpackedIsPacked(z: seq<byte>, shuffled: seq<byte>, back: seq<byte>)
    requires IsPacked(z, shuffled) && |back| == |shuffled| <= LZ4_MAX_INPUT_SIZE && IsUnpacked(z, back)
    ensures back == shuffled
  {
    hide Parse, Meaning, Resolvable, IsCompressed, IsCompressedAs;
    assert shuffled[..|shuffled|] == shuffled;
    var b := CompressedIsRead(z, shuffled, |shuffled|);
  }
}
