/** A whole buffer through the stack, block by block, and the theorem that decompressing undoes compressing. */
module BlockedWrap {
  import opened Bytes
  import opened BigEndian
  import opened Lz4Encoder
  import opened SerialChain
  import opened Blocks
  import Matrix

  const BSHUF_MIN_RECOMMEND_BLOCK: nat := 128
  const BSHUF_BLOCKED_MULT: nat := 8
  const BSHUF_TARGET_BLOCK_SIZE_B: nat := 8192

  // ---------- how a buffer is cut ----------

  /** The largest multiple of 8 elements that has no more than the target number of bytes. */
  function TargetSize(elem: nat): (r: nat)
    requires 0 < elem
    ensures r % BSHUF_BLOCKED_MULT == 0
  {
    BSHUF_TARGET_BLOCK_SIZE_B / elem / BSHUF_BLOCKED_MULT * BSHUF_BLOCKED_MULT
  }

  /** That, but at least the minimum. */
  function DefaultBlockSize(elem: nat): (r: nat)
    requires 0 < elem
    ensures r % BSHUF_BLOCKED_MULT == 0 && BSHUF_MIN_RECOMMEND_BLOCK <= r
  {
    var size := TargetSize(elem);
    if size > BSHUF_MIN_RECOMMEND_BLOCK then size else BSHUF_MIN_RECOMMEND_BLOCK
  }

  /** Unless it is the minimum it keeps within the target, and 8 elements more would not. */
  lemma DefaultBlockSizeIs(elem: nat)
    requires 0 < elem
    ensures var r := DefaultBlockSize(elem);
            && r % 8 == 0 && 128 <= r && (128 < r ==> r * elem <= 8192) && (r + 8) * elem > 8192
  {
    LargestPart(BSHUF_TARGET_BLOCK_SIZE_B, elem, TargetSize(elem), DefaultBlockSize(elem));
  }

  lemma LargestPart(t: nat, elem: nat, size: nat, r: nat)
    requires 0 < elem && size == t / elem / BSHUF_BLOCKED_MULT * BSHUF_BLOCKED_MULT <= r
    ensures size * elem <= t && (r + BSHUF_BLOCKED_MULT) * elem > t
  {
    var q := t / elem;
    Quotient(t, elem, q);
    assert size <= q < size + BSHUF_BLOCKED_MULT;
    Matrix.MulMonotone(size, q, elem);
    Matrix.MulMonotone(q + 1, r + BSHUF_BLOCKED_MULT, elem);
  }

  lemma Quotient(t: nat, elem: nat, q: nat)
    requires 0 < elem && q == t / elem
    ensures q * elem <= t < (q + 1) * elem
  {}

  /** The block size a call uses: the default for 0. */
  function BlockSize(elem: nat, block: nat): (r: nat)
    requires 0 < elem
    ensures 0 < r
  {
    if block == 0 then DefaultBlockSize(elem) else block
  }

  function LastBlock(size: nat, block: nat): (r: nat)
    requires 0 < block
    ensures r % 8 == 0 && r < block
  {
    size % block - size % block % BSHUF_BLOCKED_MULT
  }

  /** Some full blocks of 8 e elements, and a last one of `l` if there is one. */
  function PlanOf(q: nat, e: nat, l: nat): (p: seq<nat>)
    requires l % 8 == 0
    ensures 0 < e ==> forall j :: 0 <= j < |p| ==> 0 < p[j]
  {
    seq(q, _ => e) + (if l > 0 then [l / 8] else [])
  }

  lemma Eighth(n: nat)
    requires 0 < n && n % 8 == 0
    ensures 0 < n / 8
  {}

  /** The blocks a buffer of `size` elements is cut into, as eighths of their sizes. */
  function Plan(size: nat, block: nat): (p: seq<nat>)
    requires 0 < block && block % 8 == 0
    ensures forall j :: 0 <= j < |p| ==> 0 < p[j]
  {
    Eighth(block);
    PlanOf(size / block, block / 8, LastBlock(size, block))
  }

  /** The elements that are in no block. */
  function Leftover(size: nat): nat {
    size % BSHUF_BLOCKED_MULT
  }

  function Total(plan: seq<nat>): nat {
    if plan == [] then 0 else plan[0] + Total(plan[1..])
  }

  lemma {:induction false} TotalRepeated(n: nat, x: nat)
    ensures Total(seq(n, _ => x)) == n * x
  {
    if n > 0 {
      TotalRepeated(n - 1, x);
      assert seq(n, _ => x)[1..] == seq(n - 1, _ => x);
    }
  }

  lemma {:induction false} TotalAppend(a: seq<nat>, b: seq<nat>)
    ensures Total(a + b) == Total(a) + Total(b)
  {
    if a == [] {
      assert a + b == b;
    } else {
      TotalAppend(a[1..], b);
      assert (a + b)[1..] == a[1..] + b;
    }
  }

  /** The blocks and the leftover make up the buffer. */
  lemma PlanCovers(size: nat, block: nat)
    requires 0 < block && block % 8 == 0
    ensures 8 * Total(Plan(size, block)) + Leftover(size) == size
  {
    hide LastBlock;
    var (q, l) := (size / block, LastBlock(size, block));
    TotalRepeated(q, block / 8);
    TotalAppend(seq(q, _ => block / 8), if l > 0 then [l / 8] else []);
    CutSizes(size, block, q, block / 8);
  }

  lemma CutSizes(size: nat, block: nat, q: nat, h: nat)
    requires 0 < block == 8 * h && q == size / block
    ensures 8 * (q * h) + LastBlock(size, block) + size % 8 == size
  {
    var r := size % block;
    assert size == q * block + r;
    assert q * block == 8 * (q * h);
    assert (8 * (q * h) + r) % 8 == r % 8;
  }

  // ---------- what a run does ----------

  function Concat(ss: seq<seq<byte>>): seq<byte> {
    if ss == [] then [] else ss[0] + Concat(ss[1..])
  }

  lemma {:induction false} ConcatAppend(ss: seq<seq<byte>>, x: seq<byte>)
    ensures Concat(ss + [x]) == Concat(ss) + x
  {
    if ss == [] {
      assert [x][1..] == [];
    } else {
      ConcatAppend(ss[1..], x);
      assert (ss + [x])[1..] == ss[1..] + [x];
    }
  }

  /** The input holds the blocks from `pos` on, and `tail` bytes after them. */
  predicate AllReadable(fun: BlockFun, input: seq<byte>, pos: nat, plan: seq<nat>, elem: nat, tail: nat)
    decreases |plan|
  {
    if plan == [] then pos + tail <= |input|
    else
      && Readable(fun, input, pos, plan[0], elem)
      && AllReadable(fun, input, pos + Extent(fun, input, pos, plan[0], elem), plan[1..], elem, tail)
  }

  function AllRoom(fun: BlockFun, plan: seq<nat>, elem: nat): nat {
    if plan == [] then 0 else Room(fun, plan[0], elem) + AllRoom(fun, plan[1..], elem)
  }

  ghost predicate AllDone(fun: BlockFun, ins: seq<seq<byte>>, outs: seq<seq<byte>>, plan: seq<nat>, elem: nat) {
    && |ins| == |outs| <= |plan|
    && forall j :: 0 <= j < |ins| ==> Done(fun, ins[j], outs[j], plan[j], elem)
  }

  predicate AllSucceed(fun: BlockFun, ins: seq<seq<byte>>, plan: seq<nat>, elem: nat) {
    |ins| <= |plan| && forall j :: 0 <= j < |ins| ==> Succeeds(fun, ins[j], plan[j], elem)
  }

  /** The state of a run: what it has taken, what it has put out, and whether a block failed. */
  ghost predicate Progress(fun: BlockFun, input: seq<byte>, now: seq<byte>, pos: nat, opos: nat, plan: seq<nat>, elem: nat,
                           ins: seq<seq<byte>>, outs: seq<seq<byte>>, err: int, count: int)
  {
    && pos <= |input| && opos <= |now|
    && |ins| == |outs| <= |plan|
    && input[..pos] == Concat(ins) && now[..opos] == Concat(outs)
    && err <= 0 && (err == 0 <==> AllSucceed(fun, ins, plan, elem))
    && (err == 0 ==> AllDone(fun, ins, outs, plan, elem) && count == if fun == DecompressLz4 then pos else opos)
    && (fun == DecompressLz4 ==> forall j :: 0 <= j < |ins| ==> IsFrame(ins[j]))
  }

  lemma Started(fun: BlockFun, input: seq<byte>, now: seq<byte>, plan: seq<nat>, elem: nat)
    ensures Progress(fun, input, now, 0, 0, plan, elem, [], [], 0, 0)
  {}

  /** One more block call. */
  lemma Advanced(fun: BlockFun, input: seq<byte>, was: seq<byte>, now: seq<byte>, pos: nat, opos: nat, pos': nat, opos': nat,
                 plan: seq<nat>, elem: nat, ins: seq<seq<byte>>, outs: seq<seq<byte>>, err: int, count: int, r: int)
    requires Progress(fun, input, was, pos, opos, plan, elem, ins, outs, err, count) && |ins| < |plan|
    requires pos <= pos' <= |input| && opos <= opos' <= |now| == |was| && now[..opos] == was[..opos]
    requires pos' == pos + Extent(fun, input, pos, plan[|ins|], elem)
    requires r >= 0 <==> Succeeds(fun, input[pos..pos'], plan[|ins|], elem)
    requires r >= 0 ==> r == if fun == DecompressLz4 then pos' - pos else opos' - opos
    requires r >= 0 ==> Done(fun, input[pos..pos'], now[opos..opos'], plan[|ins|], elem)
    ensures Progress(fun, input, now, pos', opos', plan, elem, ins + [input[pos..pos']], outs + [now[opos..opos']],
                     if r < 0 then r else err, count + r)
  {
    hide Succeeds, Done, IsFrame;
    var i, o := input[pos..pos'], now[opos..opos'];
    ConcatAppend(ins, i);
    ConcatAppend(outs, o);
    assert input[..pos'] == input[..pos] + i;
    assert now[..opos'] == now[..opos] + o;
    if fun == DecompressLz4 { ExtentIsFrame(input, pos, plan[|ins|], elem); }
    SucceedMore(fun, ins, i, plan, elem);
  }

  lemma ExtentIsFrame(input: seq<byte>, pos: nat, w: nat, elem: nat)
    requires pos + Extent(DecompressLz4, input, pos, w, elem) <= |input|
    ensures IsFrame(input[pos..pos + Extent(DecompressLz4, input, pos, w, elem)])
  {
    FrameAt(input, pos);
  }

  lemma SucceedMore(fun: BlockFun, ins: seq<seq<byte>>, i: seq<byte>, plan: seq<nat>, elem: nat)
    requires |ins| < |plan|
    ensures AllSucceed(fun, ins + [i], plan, elem) <==> AllSucceed(fun, ins, plan, elem) && Succeeds(fun, i, plan[|ins|], elem)
  {
    hide Succeeds;
    var more := ins + [i];
    if AllSucceed(fun, more, plan, elem) {
      forall j | 0 <= j < |ins|
        ensures Succeeds(fun, ins[j], plan[j], elem)
      {
        assert more[j] == ins[j];
      }
      assert more[|ins|] == i;
    }
  }

  // ---------- the run ----------

  /** What the call of one block adds to a run. */
  method OneBlock(fun: BlockFun, isa: Isa, c: Chain, input: seq<byte>, out: array<byte>, w: nat, elem: nat, err: int, cum: int,
                  ghost plan: seq<nat>, ghost tail: nat, ghost ins: seq<seq<byte>>, ghost outs: seq<seq<byte>>)
    returns (err': int, cum': int, ghost ins': seq<seq<byte>>, ghost outs': seq<seq<byte>>)
    requires c.Valid() && 0 < w && 0 < elem && |ins| < |plan| && plan[|ins|] == w
    requires Progress(fun, input, out[..], c.In(), c.Out(), plan, elem, ins, outs, err, cum)
    requires AllReadable(fun, input, c.In(), plan[|ins|..], elem, tail)
    requires c.Out() + AllRoom(fun, plan[|ins|..], elem) + tail <= out.Length
    modifies c, c.inPl, c.outPl, out
    ensures c.Valid() && |ins'| == |ins| + 1
    ensures Progress(fun, input, out[..], c.In(), c.Out(), plan, elem, ins', outs', err', cum')
    ensures AllReadable(fun, input, c.In(), plan[|ins'|..], elem, tail)
    ensures old(c.Out()) <= c.Out() && c.Out() + AllRoom(fun, plan[|ins'|..], elem) <= old(c.Out() + AllRoom(fun, plan[|ins|..], elem))
    ensures forall k :: c.Out() <= k < out.Length ==> out[k] == old(out[k])
  {
    hide Succeeds, Done, Extent, Room, Progress, Readable;
    ProgressBounds(fun, input, out[..], c.In(), c.Out(), plan, elem, ins, outs, err, cum);
    assert plan[|ins|..][1..] == plan[|ins| + 1..];
    ghost var (was, pos, opos) := (out[..], c.In(), c.Out());
    assert pos + Extent(fun, input, pos, w, elem) <= |input| by { ReadableExtent(fun, input, pos, w, elem); }
    var count := CallBlock(fun, isa, c, input, out, w, elem);
    Advanced(fun, input, was, out[..], pos, opos, c.In(), c.Out(), plan, elem, ins, outs, err, cum, count);
    ins', outs' := ins + [input[pos..c.In()]], outs + [out[..][opos..c.Out()]];
    err' := if count < 0 then count else err;
    cum' := cum + count;
  }

  lemma ProgressBounds(fun: BlockFun, input: seq<byte>, now: seq<byte>, pos: nat, opos: nat, plan: seq<nat>, elem: nat,
                       ins: seq<seq<byte>>, outs: seq<seq<byte>>, err: int, count: int)
    requires Progress(fun, input, now, pos, opos, plan, elem, ins, outs, err, count)
    ensures pos <= |input| && opos <= |now| && |ins| == |outs| <= |plan| && err <= 0
  {}

  lemma ReadableExtent(fun: BlockFun, input: seq<byte>, pos: nat, w: nat, elem: nat)
    requires Readable(fun, input, pos, w, elem)
    ensures pos + Extent(fun, input, pos, w, elem) <= |input|
  {}

  /** A finished run: blocks, then `tail` bytes as they are. */
  ghost predicate Processed(fun: BlockFun, input: seq<byte>, output: seq<byte>, plan: seq<nat>, elem: nat, tail: nat,
                            ins: seq<seq<byte>>, outs: seq<seq<byte>>)
  {
    && |ins| == |plan| && AllDone(fun, ins, outs, plan, elem)
    && |input| == |Concat(ins)| + tail
    && input == Concat(ins) + input[|Concat(ins)|..]
    && output == Concat(outs) + input[|Concat(ins)|..]
  }

  /** What is known of a run whether or not it succeeds. */
  ghost predicate Outcome(fun: BlockFun, input: seq<byte>, now: seq<byte>, plan: seq<nat>, elem: nat, tail: nat,
                          ins: seq<seq<byte>>, outs: seq<seq<byte>>, r: int)
  {
    var (p, q) := (|Concat(ins)|, |Concat(outs)|);
    && |ins| == |plan| && p + tail <= |input| && input[..p] == Concat(ins)
    && (fun == DecompressLz4 ==> forall j :: 0 <= j < |ins| ==> IsFrame(ins[j]))
    && (r >= 0 <==> AllSucceed(fun, ins, plan, elem))
    && (r >= 0 ==>
          && r == (if fun == DecompressLz4 then p else q) + tail
          && q + tail <= |now| && q <= AllRoom(fun, plan, elem)
          && Processed(fun, input[..p + tail], now[..q + tail], plan, elem, tail, ins, outs))
  }

  lemma LeftoverIs(size: nat)
    ensures Leftover(size) == size % BSHUF_BLOCKED_MULT
  {}

  lemma PlanParts(size: nat, block: nat)
    requires 0 < block && block % 8 == 0
    ensures var (q, l) := (size / block, LastBlock(size, block));
            && |Plan(size, block)| == q + (if l > 0 then 1 else 0)
            && (forall j :: 0 <= j < q ==> Plan(size, block)[j] == block / 8)
            && (l > 0 ==> Plan(size, block)[q] == l / 8)
  {
    hide LastBlock;
    var (q, e) := (size / block, block / 8);
    assert Plan(size, block)[..q] == seq(q, _ => e);
  }

  lemma Ended(fun: BlockFun, input: seq<byte>, now: seq<byte>, pos: nat, opos: nat, plan: seq<nat>, elem: nat, tail: nat,
              ins: seq<seq<byte>>, outs: seq<seq<byte>>, err: int, cum: int)
    requires Progress(fun, input, now, pos, opos, plan, elem, ins, outs, err, cum) && |ins| == |plan|
    requires AllReadable(fun, input, pos, plan[|ins|..], elem, tail)
    ensures err <= 0 && pos + tail <= |input| && opos <= |now| && AllRoom(fun, plan[|ins|..], elem) == 0
    ensures err < 0 ==> Outcome(fun, input, now, plan, elem, tail, ins, outs, err)
  {
    hide Succeeds, Done, IsFrame;
    assert plan[|ins|..] == [];
    assert |input[..pos]| == pos;
  }

  lemma Finished(fun: BlockFun, input: seq<byte>, was: seq<byte>, now: seq<byte>, pos: nat, opos: nat, plan: seq<nat>, elem: nat, tail: nat,
                 ins: seq<seq<byte>>, outs: seq<seq<byte>>, cum: int)
    requires Progress(fun, input, was, pos, opos, plan, elem, ins, outs, 0, cum) && |ins| == |plan|
    requires pos + tail <= |input| && opos + tail <= |now| && opos <= |was| && opos <= AllRoom(fun, plan, elem)
    requires now[..opos] == was[..opos] && now[opos..opos + tail] == input[pos..pos + tail]
    ensures 0 <= cum && Outcome(fun, input, now, plan, elem, tail, ins, outs, cum + tail)
  {
    hide Succeeds, Done, IsFrame, AllSucceed, AllDone, Concat, AllRoom;
    assert |input[..pos]| == pos && |was[..opos]| == opos;
    var whole := input[..pos + tail];
    assert whole[..pos] == input[..pos];
    assert whole[pos..] == input[pos..pos + tail];
    assert whole == whole[..pos] + whole[pos..];
    assert now[..opos + tail] == now[..opos] + now[opos..opos + tail];
  }

  /** The loop over the full blocks, and the short last one. */
  method CallBlocks(fun: BlockFun, isa: Isa, c: Chain, input: seq<byte>, out: array<byte>, size: nat, elem: nat, block: nat, ghost tail: nat)
    returns (err: int, cum: int, ghost ins: seq<seq<byte>>, ghost outs: seq<seq<byte>>)
    requires c.Valid() && 0 < elem && 0 < block && block % 8 == 0 && c.In() == c.Out() == 0
    requires AllReadable(fun, input, 0, Plan(size, block), elem, tail)
    requires AllRoom(fun, Plan(size, block), elem) + tail <= out.Length
    modifies c, c.inPl, c.outPl, out
    ensures var plan := Plan(size, block);
            && c.Valid() && |ins| == |plan|
            && Progress(fun, input, out[..], c.In(), c.Out(), plan, elem, ins, outs, err, cum)
            && AllReadable(fun, input, c.In(), plan[|ins|..], elem, tail)
            && c.Out() + AllRoom(fun, plan[|ins|..], elem) <= AllRoom(fun, plan, elem)
            && forall k :: AllRoom(fun, plan, elem) + tail <= k < out.Length ==> out[k] == old(out[k])
  {
    hide Plan, AllReadable, AllRoom, Progress, LastBlock;
    ins, outs := [], [];
    err, cum := 0, 0;
    ghost var plan := Plan(size, block);
    ghost var all := AllRoom(fun, plan, elem);
    Started(fun, input, out[..], plan, elem);
    assert plan[0..] == plan;
    PlanParts(size, block);
    Eighth(block);
    var full := size / block;
    for ii := 0 to full
      invariant c.Valid() && |ins| == ii
      invariant Progress(fun, input, out[..], c.In(), c.Out(), plan, elem, ins, outs, err, cum)
      invariant AllReadable(fun, input, c.In(), plan[|ins|..], elem, tail)
      invariant c.Out() + AllRoom(fun, plan[|ins|..], elem) <= all
      invariant forall k :: all + tail <= k < out.Length ==> out[k] == old(out[k])
    {
      err, cum, ins, outs := OneBlock(fun, isa, c, input, out, block / 8, elem, err, cum, plan, tail, ins, outs);
    }
    var last := LastBlock(size, block);
    if last > 0 {
      Eighth(last);
      err, cum, ins, outs := OneBlock(fun, isa, c, input, out, last / 8, elem, err, cum, plan, tail, ins, outs);
    }
  }

  /**
   Runs a block function over a buffer of `size` elements.  The result is negative exactly if a
   block fails; otherwise it counts the bytes put out, or for decompression those taken.
   */
  method BlockedWrapFun(fun: BlockFun, isa: Isa, input: seq<byte>, out: array<byte>, size: nat, elem: nat, blockSize: nat)
    returns (r: int, ghost ins: seq<seq<byte>>, ghost outs: seq<seq<byte>>)
    requires 0 < elem
    requires var b := BlockSize(elem, blockSize); b % 8 == 0 ==>
      && AllReadable(fun, input, 0, Plan(size, b), elem, Leftover(size) * elem)
      && AllRoom(fun, Plan(size, b), elem) + Leftover(size) * elem <= out.Length
    modifies out
    ensures var b := BlockSize(elem, blockSize);
            && (b % 8 != 0 ==> r == -81 && out[..] == old(out[..]))
            && (b % 8 == 0 ==>
                  var (plan, tail) := (Plan(size, b), Leftover(size) * elem);
                  && Outcome(fun, input, out[..], plan, elem, tail, ins, outs, r)
                  && forall k :: AllRoom(fun, plan, elem) + tail <= k < out.Length ==> out[k] == old(out[k]))
  {
    hide Plan, AllReadable, AllRoom, Outcome, Progress, LastBlock, DefaultBlockSize, BlockSize;
    ins, outs := [], [];
    var c := new Chain(0, 0);
    var block := BlockSize(elem, blockSize);
    if block % BSHUF_BLOCKED_MULT != 0 { return -81, ins, outs; }
    ghost var plan := Plan(size, block);
    var tail := size % BSHUF_BLOCKED_MULT * elem;
    assert tail == Leftover(size) * elem by { LeftoverIs(size); }
    var err, cum;
    err, cum, ins, outs := CallBlocks(fun, isa, c, input, out, size, elem, block, tail);
    Ended(fun, input, out[..], c.In(), c.Out(), plan, elem, tail, ins, outs, err, cum);
    if err < 0 { return err, ins, outs; }
    var lastIn, lastOut := c.Claim(tail, tail);
    ghost var was := out[..];
    CopyTo(out, lastOut, input[lastIn..lastIn + tail]);
    Finished(fun, input, was, out[..], lastIn, lastOut, plan, elem, tail, ins, outs, cum);
    return cum + tail, ins, outs;
  }

  // ---------- the bound ----------

  /** The output size callers are told to provide. */
  method CompressLz4Bound(size: nat, elem: nat, blockSize: nat) returns (r: int)
    requires 0 < elem
    ensures var b := BlockSize(elem, blockSize);
            r == if b % 8 != 0 then -81 else AllRoom(CompressLz4, Plan(size, b), elem) + Leftover(size) * elem
  {
    hide AllRoom, PlanOf, LastBlock, CompressBound32, DefaultBlockSize, LastPart, FullPart;
    var block := blockSize;
    if block == 0 { block := DefaultBlockSize(elem); }
    if block % BSHUF_BLOCKED_MULT != 0 { return -81; }
    var blocks := size / block;
    var bound := FullPart(blocks, block, elem);
    var leftover := LastPart(size, block);
    LastBlockIs(size, block);
    if leftover > 0 { bound := bound + CompressBound32(leftover * elem) + 4; }
    RoomOfParts(blocks, block, leftover, elem);
    bound := bound + size % BSHUF_BLOCKED_MULT * elem;
    return bound;
  }

  /** A block of `n` bytes may take 16 bytes and a 255th more. */
  lemma BoundOf(n: nat)
    ensures n <= 0x7E00_0000 ==> CompressBound32(n) == n + n / 255 + 16
  {}

  /** A frame of `n` bytes may take a 255th of them, and 20 more. */
  function FrameRoom(n: nat): nat {
    n + n / 255 + 20
  }

  /** In numbers: room for each full block, for the short one if there is one, and for the leftover as it is. */
  function BoundInNumbers(size: nat, elem: nat, block: nat): nat
    requires 0 < block
  {
    FullRoom(size, elem, block) + LastRoom(size, elem, block) + size % 8 * elem
  }

  function FullRoom(size: nat, elem: nat, block: nat): nat
    requires 0 < block
  {
    size / block * FrameRoom(block * elem)
  }

  function LastRoom(size: nat, elem: nat, block: nat): nat
    requires 0 < block
  {
    var last := size % block / 8 * 8 * elem;
    if last > 0 then FrameRoom(last) else 0
  }

  lemma FullNumbers(size: nat, elem: nat, block: nat)
    requires 0 < block && (size / block == 0 || block * elem <= 0x7E00_0000)
    ensures FullPart(size / block, block, elem) == FullRoom(size, elem, block)
  {
    hide CompressBound32;
    BoundOf(block * elem);
    Turned(CompressBound32(block * elem) + 4, size / block);
    if size / block > 0 { assert CompressBound32(block * elem) + 4 == FrameRoom(block * elem); }
  }

  lemma Turned(a: nat, b: nat)
    ensures a * b == b * a
  {}

  lemma LastNumbers(size: nat, elem: nat, block: nat)
    requires 0 < elem && 0 < block && LastPart(size, block) * elem <= 0x7E00_0000
    ensures (if LastPart(size, block) > 0 then CompressBound32(LastPart(size, block) * elem) + 4 else 0) == LastRoom(size, elem, block)
  {
    hide CompressBound32, LastPart;
    LastPartIs(size, block);
    var l := LastPart(size, block);
    BoundOf(l * elem);
    Positive(l, elem);
  }

  lemma Positive(l: nat, elem: nat)
    requires 0 < elem
    ensures l * elem > 0 <==> l > 0
  {}

  lemma RoomSum(q: nat, block: nat, l: nat, elem: nat, full: nat, last: nat)
    requires block % 8 == 0 && l % 8 == 0 && FullPart(q, block, elem) == full
    requires last == if l > 0 then CompressBound32(l * elem) + 4 else 0
    ensures AllRoom(CompressLz4, PlanOf(q, block / 8, l), elem) == full + last
  {
    hide AllRoom, PlanOf, CompressBound32, FullPart;
    RoomOfParts(q, block, l, elem);
  }

  lemma PlanRoom(size: nat, elem: nat, block: nat)
    requires 0 < elem && 0 < block && block % 8 == 0 && BlocksFit(size, elem, block)
    ensures AllRoom(CompressLz4, Plan(size, block), elem) == FullRoom(size, elem, block) + LastRoom(size, elem, block)
  {
    hide *;
    PlanInParts(size, block);
    PartsFit(size, elem, block);
    FullNumbers(size, elem, block);
    LastNumbers(size, elem, block);
    RoomSum(size / block, block, LastPart(size, block), elem, FullRoom(size, elem, block), LastRoom(size, elem, block));
  }

  /** The bound that `CompressLz4Bound` gives, in numbers, when no block is too large. */
  lemma BoundIs(size: nat, elem: nat, block: nat)
    requires 0 < elem && 0 < block && block % 8 == 0 && BlocksFit(size, elem, block)
    ensures AllRoom(CompressLz4, Plan(size, block), elem) + Leftover(size) * elem == BoundInNumbers(size, elem, block)
  {
    hide AllRoom, Plan, FullRoom, LastRoom, BlocksFit;
    PlanRoom(size, elem, block);
  }

  lemma PlanInParts(size: nat, block: nat)
    requires 0 < block && block % 8 == 0
    ensures LastPart(size, block) % 8 == 0 && Plan(size, block) == PlanOf(size / block, block / 8, LastPart(size, block))
  {
    hide PlanOf, LastPart, LastBlock;
    LastBlockIs(size, block);
  }

  lemma PartsFit(size: nat, elem: nat, block: nat)
    requires 0 < block && BlocksFit(size, elem, block)
    ensures (size / block == 0 || block * elem <= 0x7E00_0000) && LastPart(size, block) * elem <= 0x7E00_0000
  {
    hide LastPart, LastBlock;
    LastBlockIs(size, block);
    FullBlocks(size, block);
  }

  lemma LastPartIs(size: nat, block: nat)
    requires 0 < block
    ensures LastPart(size, block) == size % block / 8 * 8 && LastPart(size, block) % 8 == 0
  {}

  /** The elements of the partial block, rounded down. */
  function LastPart(size: nat, block: nat): nat
    requires 0 < block
  {
    size % block / BSHUF_BLOCKED_MULT * BSHUF_BLOCKED_MULT
  }

  /** The room of the full blocks. */
  function FullPart(blocks: nat, block: nat, elem: nat): nat {
    (CompressBound32(block * elem) + 4) * blocks
  }

  lemma LastBlockIs(size: nat, block: nat)
    requires 0 < block
    ensures LastPart(size, block) == LastBlock(size, block)
  {}

  lemma {:induction false} RoomRepeated(n: nat, w: nat, elem: nat)
    ensures AllRoom(CompressLz4, seq(n, _ => w), elem) == Room(CompressLz4, w, elem) * n
  {
    hide Room;
    if n > 0 {
      RoomRepeated(n - 1, w, elem);
      assert seq(n, _ => w)[1..] == seq(n - 1, _ => w);
    }
  }

  lemma {:induction false} RoomAppend(fun: BlockFun, a: seq<nat>, b: seq<nat>, elem: nat)
    ensures AllRoom(fun, a + b, elem) == AllRoom(fun, a, elem) + AllRoom(fun, b, elem)
  {
    hide Room;
    if a == [] {
      assert a + b == b;
    } else {
      RoomAppend(fun, a[1..], b, elem);
      assert (a + b)[1..] == a[1..] + b;
    }
  }

  lemma RoomOfBlock(block: nat, elem: nat)
    requires block % 8 == 0
    ensures Room(CompressLz4, block / 8, elem) == CompressBound32(block * elem) + 4
  {
    hide CompressBound32;
    assert 8 * (block / 8) == block;
  }

  lemma RoomOfLast(l: nat, elem: nat)
    requires l % 8 == 0
    ensures AllRoom(CompressLz4, if l > 0 then [l / 8] else [], elem) == if l > 0 then CompressBound32(l * elem) + 4 else 0
  {
    hide CompressBound32, Room;
    RoomOfBlock(l, elem);
    assert [l / 8][1..] == [];
  }

  /** The bound's product and addend are the sum over the blocks. */
  lemma RoomOfParts(q: nat, block: nat, l: nat, elem: nat)
    requires block % 8 == 0 && l % 8 == 0
    ensures AllRoom(CompressLz4, PlanOf(q, block / 8, l), elem)
            == FullPart(q, block, elem) + if l > 0 then CompressBound32(l * elem) + 4 else 0
  {
    hide AllRoom, CompressBound32, Room;
    RoomRepeated(q, block / 8, elem);
    RoomOfBlock(block, elem);
    RoomOfLast(l, elem);
    RoomAppend(CompressLz4, seq(q, _ => block / 8), if l > 0 then [l / 8] else [], elem);
  }

  // ---------- there and back ----------

  /** Frames say where they end: a string of them is cut in one way. */
  lemma {:induction false} FramesUnique(a: seq<seq<byte>>, x: seq<byte>, b: seq<seq<byte>>, y: seq<byte>)
    requires |a| == |b| && Concat(a) + x == Concat(b) + y
    requires forall j :: 0 <= j < |a| ==> IsFrame(a[j]) && IsFrame(b[j])
    ensures a == b && x == y
  {
    hide FromBE;
    if a == [] {
      assert Concat(a) + x == x && Concat(b) + y == y;
    } else {
      var s := Concat(a) + x;
      assert s == a[0] + (Concat(a[1..]) + x) && s == b[0] + (Concat(b[1..]) + y);
      assert a[0][..4] == s[..4] == b[0][..4];
      assert a[0] == s[..|a[0]|] && b[0] == s[..|b[0]|];
      assert Concat(a[1..]) + x == s[|a[0]|..] && Concat(b[1..]) + y == s[|b[0]|..];
      FramesUnique(a[1..], x, b[1..], y);
    }
  }

  /** The decompressor finds every frame of what was compressed. */
  lemma {:induction false} FramesReadable(comp: seq<byte>, pos: nat, frames: seq<seq<byte>>, plan: seq<nat>, elem: nat, tail: nat)
    requires |frames| == |plan| && pos <= |comp| && |comp[pos..]| == |Concat(frames)| + tail && Concat(frames) <= comp[pos..]
    requires forall j :: 0 <= j < |frames| ==> IsFrame(frames[j]) && |frames[j]| < 0x8000_0004
    ensures AllReadable(DecompressLz4, comp, pos, plan, elem, tail)
    decreases |frames|
  {
    hide FromBE;
    if frames == [] {
    } else {
      var f := frames[0];
      var s := comp[pos..];
      assert s[..|Concat(frames)|] == Concat(frames);
      assert s[..|f|] == f && s[|f|..|Concat(frames)|] == Concat(frames[1..]);
      assert comp[pos..pos + 4] == f[..4];
      assert comp[pos + |f|..] == s[|f|..];
      FramesReadable(comp, pos + |f|, frames[1..], plan[1..], elem, tail);
    }
  }

  lemma {:induction false} BlocksReadable(input: seq<byte>, pos: nat, plan: seq<nat>, elem: nat, tail: nat)
    requires pos + 8 * Total(plan) * elem + tail <= |input|
    ensures AllReadable(CompressLz4, input, pos, plan, elem, tail)
    decreases |plan|
  {
    if plan != [] {
      assert 8 * Total(plan) * elem == 8 * plan[0] * elem + 8 * Total(plan[1..]) * elem;
      BlocksReadable(input, pos + 8 * plan[0] * elem, plan[1..], elem, tail);
    }
  }

  lemma {:induction false} PlainRoom(plan: seq<nat>, elem: nat)
    ensures AllRoom(DecompressLz4, plan, elem) == 8 * Total(plan) * elem
  {
    if plan != [] {
      PlainRoom(plan[1..], elem);
      assert 8 * Total(plan) * elem == 8 * plan[0] * elem + 8 * Total(plan[1..]) * elem;
    }
  }

  /** The buffers of the round trip are large enough. */
  lemma BuffersSuffice(size: nat, block: nat, elem: nat)
    requires 0 < block && block % 8 == 0
    ensures var (plan, tail) := (Plan(size, block), Leftover(size) * elem);
            && 8 * Total(plan) * elem + tail == size * elem
            && AllRoom(DecompressLz4, plan, elem) + tail == size * elem
  {
    hide Plan, Total, Leftover, AllRoom;
    var (t, l) := (Total(Plan(size, block)), Leftover(size));
    PlanCovers(size, block);
    PlainRoom(Plan(size, block), elem);
    assert (8 * t + l) * elem == 8 * t * elem + l * elem;
  }

  /** No block has more bytes than the compressor takes. */
  predicate BlocksFit(size: nat, elem: nat, block: nat)
    requires 0 < block
  {
    && (block <= size ==> block * elem <= LZ4_MAX_INPUT_SIZE)
    && LastBlock(size, block) * elem <= LZ4_MAX_INPUT_SIZE
  }

  lemma BlocksFitPlan(size: nat, elem: nat, block: nat)
    requires 0 < block && block % 8 == 0
    ensures BlocksFit(size, elem, block) <==>
      forall j :: 0 <= j < |Plan(size, block)| ==> 8 * Plan(size, block)[j] * elem <= LZ4_MAX_INPUT_SIZE
  {
    hide Plan, LastBlock;
    var (q, l, plan) := (size / block, LastBlock(size, block), Plan(size, block));
    PlanParts(size, block);
    FullBlocks(size, block);
    assert 8 * (block / 8) == block && 8 * (l / 8) == l;
    var limit := LZ4_MAX_INPUT_SIZE;
    if BlocksFit(size, elem, block) {
      forall j | 0 <= j < |plan|
        ensures 8 * plan[j] * elem <= limit
      {
        if j < q { assert 8 * plan[j] == block; } else { assert 8 * plan[j] == l; }
      }
    }
    if forall j :: 0 <= j < |plan| ==> 8 * plan[j] * elem <= limit {
      if block <= size { assert 8 * plan[0] == block; }
      if l > 0 { assert 8 * plan[q] == l; }
    }
  }

  lemma FullBlocks(size: nat, block: nat)
    requires 0 < block
    ensures block <= size <==> 0 < size / block
  {}

  /** Every compressed block on its own. */
  lemma EveryBlock(ins: seq<seq<byte>>, outs: seq<seq<byte>>, plan: seq<nat>, elem: nat)
    requires 0 < elem && |ins| == |plan| && AllDone(CompressLz4, ins, outs, plan, elem)
    requires forall j :: 0 <= j < |plan| ==> 0 < plan[j]
    ensures forall j :: 0 <= j < |outs| ==> IsFrame(outs[j]) && |outs[j]| < 0x8000_0004
    ensures AllSucceed(DecompressLz4, outs, plan, elem) <==>
      forall j :: 0 <= j < |plan| ==> 8 * plan[j] * elem <= LZ4_MAX_INPUT_SIZE
    ensures AllSucceed(DecompressLz4, outs, plan, elem) ==>
      forall backs :: |backs| == |plan| && AllDone(DecompressLz4, outs, backs, plan, elem) ==> backs == ins
  {
    hide Succeeds, Done, IsFrame;
    forall j | 0 <= j < |plan|
      ensures IsFrame(outs[j]) && |outs[j]| < 0x8000_0004 && |ins[j]| == 8 * plan[j] * elem
      ensures Succeeds(DecompressLz4, outs[j], plan[j], elem) <==> |ins[j]| <= LZ4_MAX_INPUT_SIZE
      ensures |ins[j]| <= LZ4_MAX_INPUT_SIZE ==>
        forall back :: Done(DecompressLz4, outs[j], back, plan[j], elem) ==> back == ins[j]
    {
      BlockRoundTrip(ins[j], outs[j], plan[j], elem);
      DoneSizes(ins[j], outs[j], plan[j], elem);
    }
  }

  lemma DoneSizes(raw: seq<byte>, frame: seq<byte>, w: nat, elem: nat)
    requires Done(CompressLz4, raw, frame, w, elem)
    ensures IsFrame(frame) && |frame| < 0x8000_0004 && |raw| == 8 * w * elem
  {
    PackedSize(8 * w * elem);
  }

  /** A run over what a compressing run put out has the frames as its blocks. */
  lemma SameBlocks(data: seq<byte>, comp: seq<byte>, now: seq<byte>, plan: seq<nat>, elem: nat, tail: nat, r: int,
                   ins: seq<seq<byte>>, outs: seq<seq<byte>>, ins': seq<seq<byte>>, outs': seq<seq<byte>>)
    requires Processed(CompressLz4, data, comp, plan, elem, tail, ins, outs)
    requires forall j :: 0 <= j < |outs| ==> IsFrame(outs[j])
    requires Outcome(DecompressLz4, comp, now, plan, elem, tail, ins', outs', r)
    ensures ins' == outs && |comp| == |Concat(outs)| + tail
  {
    hide Done, AllSucceed, IsFrame, Concat;
    var rest := data[|Concat(ins)|..];
    assert comp == Concat(ins') + comp[|Concat(ins')|..];
    FramesUnique(ins', comp[|Concat(ins')|..], outs, rest);
  }

  /** What decompressing leaves in the output is what was compressed. */
  lemma Restored(data: seq<byte>, comp: seq<byte>, now: seq<byte>, plan: seq<nat>, elem: nat, tail: nat, r: int,
                 ins: seq<seq<byte>>, outs: seq<seq<byte>>, ins': seq<seq<byte>>, outs': seq<seq<byte>>)
    requires 0 < elem && (forall j :: 0 <= j < |plan| ==> 0 < plan[j]) && |now| == |data|
    requires Processed(CompressLz4, data, comp, plan, elem, tail, ins, outs)
    requires Outcome(DecompressLz4, comp, now, plan, elem, tail, ins', outs', r)
    ensures r >= 0 <==> forall j :: 0 <= j < |plan| ==> 8 * plan[j] * elem <= LZ4_MAX_INPUT_SIZE
    ensures r >= 0 ==> r == |comp| && now == data
  {
    hide Done, AllSucceed, Concat, IsFrame, AllDone, AllRoom;
    AllDoneSizes(CompressLz4, ins, outs, plan, elem);
    EveryBlock(ins, outs, plan, elem);
    SameBlocks(data, comp, now, plan, elem, tail, r, ins, outs, ins', outs');
    if r >= 0 {
      var whole := comp[..|Concat(ins')| + tail];
      assert whole == comp;
      assert outs' == ins by { AllDoneSizes(DecompressLz4, ins', outs', plan, elem); }
      assert comp[|Concat(outs)|..] == data[|Concat(ins)|..];
      assert now[..|Concat(ins)| + tail] == now;
    }
  }

  lemma AllDoneSizes(fun: BlockFun, ins: seq<seq<byte>>, outs: seq<seq<byte>>, plan: seq<nat>, elem: nat)
    requires AllDone(fun, ins, outs, plan, elem)
    ensures |ins| == |outs| <= |plan|
  {}

  /** Compressing a whole buffer never fails, and what it puts out can be read frame by frame. */
  lemma Compressed(data: seq<byte>, now: seq<byte>, plan: seq<nat>, elem: nat, tail: nat,
                   ins: seq<seq<byte>>, outs: seq<seq<byte>>, r: int)
    requires 0 < elem && (forall j :: 0 <= j < |plan| ==> 0 < plan[j]) && 8 * Total(plan) * elem + tail == |data|
    requires Outcome(CompressLz4, data, now, plan, elem, tail, ins, outs, r)
    ensures 0 <= r <= |now| && r <= AllRoom(CompressLz4, plan, elem) + tail
    ensures Processed(CompressLz4, data, now[..r], plan, elem, tail, ins, outs)
    ensures AllReadable(DecompressLz4, now[..r], 0, plan, elem, tail)
  {
    hide Done, Concat, IsFrame, AllRoom, AllReadable;
    var comp := now[..r];
    ConcatBlocks(ins, outs, plan, elem);
    assert data[..|Concat(ins)| + tail] == data;
    EveryBlock(ins, outs, plan, elem);
    assert comp[0..] == comp;
    assert Concat(outs) <= comp;
    FramesReadable(comp, 0, outs, plan, elem, tail);
  }

  lemma {:induction false} ConcatBlocks(ins: seq<seq<byte>>, outs: seq<seq<byte>>, plan: seq<nat>, elem: nat)
    requires |ins| == |plan| && AllDone(CompressLz4, ins, outs, plan, elem)
    ensures |Concat(ins)| == 8 * Total(plan) * elem
  {
    hide Done;
    if ins == [] {
    } else {
      DoneSizes(ins[0], outs[0], plan[0], elem);
      forall j | 0 <= j < |ins| - 1
        ensures Done(CompressLz4, ins[1..][j], outs[1..][j], plan[1..][j], elem)
      {
        assert Done(CompressLz4, ins[j + 1], outs[j + 1], plan[j + 1], elem);
      }
      ConcatBlocks(ins[1..], outs[1..], plan[1..], elem);
      assert 8 * Total(plan) * elem == 8 * plan[0] * elem + 8 * Total(plan[1..]) * elem;
    }
  }

  /**
   Compress, then decompress, with any two instruction sets.  Compressing always reports success
   and stays in the bound.  Decompressing gives the data back and takes exactly the bytes
   that compressing counted, if no block is too large for the compressor; otherwise it fails.
   */
  method RoundTrip(isa: Isa, isa': Isa, data: seq<byte>, size: nat, elem: nat, blockSize: nat) returns (n: int, m: int, back: array<byte>)
    requires 0 < elem && |data| == size * elem
    ensures var b := BlockSize(elem, blockSize);
            && (b % 8 != 0 ==> n == m == -81)
            && (b % 8 == 0 ==>
                  && 0 <= n <= AllRoom(CompressLz4, Plan(size, b), elem) + Leftover(size) * elem
                  && (m >= 0 <==> BlocksFit(size, elem, b))
                  && (m >= 0 ==> m == n && back[..] == data))
  {
    hide Plan, AllReadable, AllRoom, Outcome, LastBlock, DefaultBlockSize, Leftover, Processed, Total, BlocksFit, BlockSize;
    ghost var b := BlockSize(elem, blockSize);
    var bound := CompressLz4Bound(size, elem, blockSize);
    var out := new byte[if bound < 0 then 0 else bound];
    back := new byte[size * elem];
    ghost var ins, outs, ins', outs';
    if b % 8 == 0 {
      BuffersSuffice(size, b, elem);
      BlocksReadable(data, 0, Plan(size, b), elem, Leftover(size) * elem);
    }
    n, ins, outs := BlockedWrapFun(CompressLz4, isa, data, out, size, elem, blockSize);
    if b % 8 == 0 { Compressed(data, out[..], Plan(size, b), elem, Leftover(size) * elem, ins, outs, n); }
    var comp := if n < 0 then [] else out[..n];
    m, ins', outs' := BlockedWrapFun(DecompressLz4, isa', comp, back, size, elem, blockSize);
    if b % 8 == 0 {
      var (plan, tail) := (Plan(size, b), Leftover(size) * elem);
      Restored(data, comp, back[..], plan, elem, tail, m, ins, outs, ins', outs');
      BlocksFitPlan(size, elem, b);
    }
  }

  /** With the default block size every buffer of elements below 16 MB comes back. */
  lemma DefaultBlocksFit(size: nat, elem: nat)
    requires 0 < elem <= LZ4_MAX_INPUT_SIZE / BSHUF_MIN_RECOMMEND_BLOCK
    ensures BlocksFit(size, elem, DefaultBlockSize(elem))
  {
    hide LastBlock, DefaultBlockSize;
    var b := DefaultBlockSize(elem);
    DefaultBlockSizeIs(elem);
    if b == BSHUF_MIN_RECOMMEND_BLOCK { assert b * elem <= LZ4_MAX_INPUT_SIZE; }
    Matrix.MulMonotone(LastBlock(size, b), b, elem);
  }

  /** One block of 128 elements of 16 MB is too large, and so is what the caller may ask for as one block. */
  lemma TooLargeBlocks()
    ensures DefaultBlockSize(0x100_0000) == 128 && !BlocksFit(128, 0x100_0000, DefaultBlockSize(0x100_0000))
    ensures !BlocksFit(0x7E00_0008, 1, 0x7E00_0008) && BlocksFit(0x7E00_0000, 1, 0x7E00_0000)
  {}
}
