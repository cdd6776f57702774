/** Blocks processed by many threads land where a serial run puts them. */
module ParallelBlocks {
  import opened Bytes
  import opened Blocks
  import opened BlockedWrap
  import IoChain
  import IoChainRuns

  /** What the block function puts out for a block, given its number and its bytes. */
  type Code = (nat, seq<byte>) -> seq<byte>

  /** The block at `p`. */
  function BlockAt(fun: BlockFun, input: seq<byte>, p: nat, w: nat, elem: nat): seq<byte> {
    var n := Extent(fun, input, p, w, elem);
    if p + n <= |input| then input[p..p + n] else []
  }

  /** How an iteration moves the pointers: by what it reads at its own, and by what it puts out for it. */
  function ChainOf(fun: BlockFun, input: seq<byte>, plan: seq<nat>, elem: nat, code: Code): IoChain.Chain {
    IoChain.Chain(0, 0,
      (j: nat, p: int) => if j < |plan| && 0 <= p then p + Extent(fun, input, p, plan[j], elem) else p,
      (j: nat, p: int, q: int) => if j < |plan| && 0 <= p then q + |code(j, BlockAt(fun, input, p, plan[j], elem))| else q,
      |plan|)
  }

  /** A serial run: it takes the blocks `ins` one after the other, and puts out `outs`, by the same block function. */
  ghost predicate SerialRun(fun: BlockFun, input: seq<byte>, plan: seq<nat>, elem: nat, code: Code, ins: seq<seq<byte>>, outs: seq<seq<byte>>) {
    && |ins| == |outs| == |plan| && Concat(ins) <= input
    && (forall j :: 0 <= j < |ins| ==> code(j, ins[j]) == outs[j])
    && (forall j :: 0 <= j < |ins| ==> Extent(fun, input, |Concat(ins[..j])|, plan[j], elem) == |ins[j]|)
  }

  lemma {:induction false} ConcatSplit(a: seq<seq<byte>>, b: seq<seq<byte>>)
    ensures Concat(a + b) == Concat(a) + Concat(b)
  {
    if a == [] {
      assert a + b == b;
    } else {
      assert (a + b)[1..] == a[1..] + b;
      ConcatSplit(a[1..], b);
    }
  }

  /** Where a part stands in the whole. */
  lemma PartAt(ss: seq<seq<byte>>, j: nat)
    requires j < |ss|
    ensures var p := |Concat(ss[..j])|;
            && Concat(ss[..j + 1]) == Concat(ss[..j]) + ss[j]
            && p + |ss[j]| <= |Concat(ss)| && Concat(ss)[p..p + |ss[j]|] == ss[j]
  {
    hide Concat;
    assert ss[..j + 1] == ss[..j] + [ss[j]];
    ConcatAppend(ss[..j], ss[j]);
    assert ss == ss[..j + 1] + ss[j + 1..];
    ConcatSplit(ss[..j + 1], ss[j + 1..]);
    var p := |Concat(ss[..j])|;
    assert Concat(ss) == Concat(ss[..j]) + ss[j] + Concat(ss[j + 1..]);
  }

  /** The block at the place where the serial run has come to. */
  lemma BlockOfRun(fun: BlockFun, input: seq<byte>, plan: seq<nat>, elem: nat, code: Code, ins: seq<seq<byte>>, outs: seq<seq<byte>>, j: nat)
    requires SerialRun(fun, input, plan, elem, code, ins, outs) && j < |plan|
    ensures BlockAt(fun, input, |Concat(ins[..j])|, plan[j], elem) == ins[j]
  {
    hide Extent, Concat;
    PartAt(ins, j);
    var p := |Concat(ins[..j])|;
    assert input[..|Concat(ins)|] == Concat(ins);
    assert input[p..p + |ins[j]|] == Concat(ins)[p..p + |ins[j]|];
  }

  lemma NoParts(ss: seq<seq<byte>>)
    ensures Concat(ss[..0]) == []
  {}

  /** The pointers of the chain are the places of the blocks in a serial run. */
  lemma {:induction false} SerialOffsets(fun: BlockFun, input: seq<byte>, plan: seq<nat>, elem: nat, code: Code,
                                         ins: seq<seq<byte>>, outs: seq<seq<byte>>, i: nat)
    requires SerialRun(fun, input, plan, elem, code, ins, outs) && i <= |plan|
    ensures var c := ChainOf(fun, input, plan, elem, code);
            IoChain.SerialIn(c, i) == |Concat(ins[..i])| && IoChain.SerialOut(c, i) == |Concat(outs[..i])|
    decreases i
  {
    hide Extent, Concat, BlockAt, SerialRun;
    var c := ChainOf(fun, input, plan, elem, code);
    assert |ins| == |outs| == |plan| by { RunShape(fun, input, plan, elem, code, ins, outs); }
    if i == 0 {
      NoParts(ins);
      NoParts(outs);
    } else {
      var j := i - 1;
      SerialOffsets(fun, input, plan, elem, code, ins, outs, j);
      BlockOfRun(fun, input, plan, elem, code, ins, outs, j);
      RunStep(fun, input, plan, elem, code, ins, outs, j);
      PartAt(ins, j);
      PartAt(outs, j);
    }
  }

  lemma RunShape(fun: BlockFun, input: seq<byte>, plan: seq<nat>, elem: nat, code: Code, ins: seq<seq<byte>>, outs: seq<seq<byte>>)
    requires SerialRun(fun, input, plan, elem, code, ins, outs)
    ensures |ins| == |outs| == |plan|
  {}

  lemma RunStep(fun: BlockFun, input: seq<byte>, plan: seq<nat>, elem: nat, code: Code, ins: seq<seq<byte>>, outs: seq<seq<byte>>, j: nat)
    requires SerialRun(fun, input, plan, elem, code, ins, outs) && j < |plan|
    ensures code(j, ins[j]) == outs[j] && Extent(fun, input, |Concat(ins[..j])|, plan[j], elem) == |ins[j]|
  {}

  // ---------- runs by many threads ----------

  /**
   In every interleaving of any number of threads, an iteration reads the very block that the
   serial run has for its number, and is told the place in the output where the serial run
   has what comes of it.
   */
  lemma SamePlaces(fun: BlockFun, input: seq<byte>, plan: seq<nat>, elem: nat, code: Code, ins: seq<seq<byte>>, outs: seq<seq<byte>>,
                   tr: seq<IoChain.State>, k: nat, i: nat)
    requires SerialRun(fun, input, plan, elem, code, ins, outs)
    requires IoChain.Run(ChainOf(fun, input, plan, elem, code), tr) && k < |tr| && i < |tr[k].iters| && i < |plan|
    ensures 5 <= tr[k].iters[i].stage ==>
      && tr[k].iters[i].inPtr == |Concat(ins[..i])|
      && BlockAt(fun, input, tr[k].iters[i].inPtr, plan[i], elem) == ins[i]
    ensures 9 <= tr[k].iters[i].stage ==> tr[k].iters[i].outPtr == |Concat(outs[..i])|
  {
    hide IoChain.Run, SerialRun, ChainOf, BlockAt, Concat;
    RunShape(fun, input, plan, elem, code, ins, outs);
    IoChainRuns.ReadsAreSerial(ChainOf(fun, input, plan, elem, code), tr, k, i);
    SerialOffsets(fun, input, plan, elem, code, ins, outs, i);
    BlockOfRun(fun, input, plan, elem, code, ins, outs, i);
  }

  /** Every iteration of a state has written what it puts out where its pointer says. */
  ghost predicate AllWritten(fun: BlockFun, input: seq<byte>, plan: seq<nat>, elem: nat, code: Code, iters: seq<IoChain.Iteration>, now: seq<byte>) {
    forall i :: 0 <= i < |iters| && i < |plan| ==>
      var (p, q) := (iters[i].inPtr, iters[i].outPtr);
      0 <= p && 0 <= q && var o := code(i, BlockAt(fun, input, p, plan[i], elem)); q + |o| <= |now| && now[q..q + |o|] == o
  }

  lemma {:induction false} Assembled(outs: seq<seq<byte>>, now: seq<byte>)
    requires forall i :: 0 <= i < |outs| ==> var q := |Concat(outs[..i])|; q + |outs[i]| <= |now| && now[q..q + |outs[i]|] == outs[i]
    ensures |Concat(outs)| <= |now| && now[..|Concat(outs)|] == Concat(outs)
  {
    hide Concat;
    NoParts(outs);
    if outs == [] {
      assert outs == outs[..0];
    } else {
      var n := |outs| - 1;
      var front := outs[..n];
      forall i | 0 <= i < n
        ensures front[..i] == outs[..i] && front[i] == outs[i]
      {}
      Assembled(front, now);
      PartAt(outs, n);
      assert outs[..n + 1] == outs;
      var q := |Concat(front)|;
      assert now[..q + |outs[n]|] == now[..q] + now[q..q + |outs[n]|];
    }
  }

  /**
   A run by any number of threads that cannot go on has put out, in one piece from the start,
   the very bytes that the serial run puts out, and has moved both pointers as far.
   */
  lemma SameBytes(fun: BlockFun, input: seq<byte>, plan: seq<nat>, elem: nat, code: Code, ins: seq<seq<byte>>, outs: seq<seq<byte>>,
                  tr: seq<IoChain.State>, now: seq<byte>)
    requires SerialRun(fun, input, plan, elem, code, ins, outs)
    requires IoChain.Run(ChainOf(fun, input, plan, elem, code), tr)
    requires var s := tr[|tr| - 1];
             && |s.threads| > 0 && IoChainRuns.Stuck(ChainOf(fun, input, plan, elem, code), s)
             && AllWritten(fun, input, plan, elem, code, s.iters, now)
    ensures |Concat(outs)| <= |now| && now[..|Concat(outs)|] == Concat(outs)
    ensures var s := tr[|tr| - 1];
            && IoChain.Shaped(s)
            && s.inPl[IoChain.Slot(|plan|)] == |Concat(ins)| && s.outPl[IoChain.Slot(|plan|)] == |Concat(outs)|
  {
    assert |tr| > 0;
    hide IoChain.Run, IoChainRuns.Stuck, SerialRun, BlockAt, Concat, IoChain.SerialIn, IoChain.SerialOut;
    var (c, s) := (ChainOf(fun, input, plan, elem, code), tr[|tr| - 1]);
    RunShape(fun, input, plan, elem, code, ins, outs);
    IoChainRuns.StuckRunIsComplete(c, tr);
    SerialOffsets(fun, input, plan, elem, code, ins, outs, |plan|);
    assert ins[..|plan|] == ins && outs[..|plan|] == outs;
    forall i | 0 <= i < |outs|
      ensures var q := |Concat(outs[..i])|; q + |outs[i]| <= |now| && now[q..q + |outs[i]|] == outs[i]
    {
      SamePlaces(fun, input, plan, elem, code, ins, outs, tr, |tr| - 1, i);
      RunStep(fun, input, plan, elem, code, ins, outs, i);
    }
    Assembled(outs, now);
  }

  // ---------- the serial run is the one of the block loop ----------

  /** What the block loop reports is a serial run, for any block function that does to its blocks what was done. */
  lemma LoopIsSerial(fun: BlockFun, input: seq<byte>, now: seq<byte>, plan: seq<nat>, elem: nat, tail: nat, code: Code,
                     ins: seq<seq<byte>>, outs: seq<seq<byte>>, r: int)
    requires Outcome(fun, input, now, plan, elem, tail, ins, outs, r) && r >= 0
    requires |outs| == |ins| && forall j :: 0 <= j < |ins| ==> code(j, ins[j]) == outs[j]
    ensures SerialRun(fun, input, plan, elem, code, ins, outs)
    ensures now[..|Concat(outs)|] == Concat(outs) && r == (if fun == DecompressLz4 then |Concat(ins)| else |Concat(outs)|) + tail
  {
    hide Done, Concat, Extent, AllSucceed, Succeeds, IsFrame, AllRoom;
    EachDone(fun, input, now, plan, elem, tail, ins, outs, r);
    hide Outcome, Processed, AllDone;
    var p := |Concat(ins)|;
    assert input[..p] == Concat(ins);
    forall j | 0 <= j < |ins|
      ensures Extent(fun, input, |Concat(ins[..j])|, plan[j], elem) == |ins[j]|
    {
      PartAt(ins, j);
      var at := |Concat(ins[..j])|;
      assert input[at..at + |ins[j]|] == Concat(ins)[at..at + |ins[j]|];
      ExtentOfBlock(fun, input, at, ins[j], outs[j], plan[j], elem);
    }
  }

  lemma EachDone(fun: BlockFun, input: seq<byte>, now: seq<byte>, plan: seq<nat>, elem: nat, tail: nat, ins: seq<seq<byte>>, outs: seq<seq<byte>>, r: int)
    requires Outcome(fun, input, now, plan, elem, tail, ins, outs, r) && r >= 0
    ensures |ins| == |outs| == |plan| && Concat(ins) <= input
    ensures forall j :: 0 <= j < |ins| ==> Done(fun, ins[j], outs[j], plan[j], elem)
    ensures |Concat(outs)| <= |now| && now[..|Concat(outs)|] == Concat(outs)
    ensures r == (if fun == DecompressLz4 then |Concat(ins)| else |Concat(outs)|) + tail
  {
    hide Done, Concat, AllSucceed, IsFrame, AllRoom;
    var (whole, q) := (now[..|Concat(outs)| + tail], |Concat(outs)|);
    assert whole[..q] == now[..q];
    assert input[..|Concat(ins)|] == Concat(ins);
  }

  lemma ExtentOfBlock(fun: BlockFun, input: seq<byte>, at: nat, i: seq<byte>, o: seq<byte>, w: nat, elem: nat)
    requires at + |i| <= |input| && input[at..at + |i|] == i && Done(fun, i, o, w, elem)
    ensures Extent(fun, input, at, w, elem) == |i|
  {
    hide IsPacked, IsUnpacked;
    if fun == DecompressLz4 { assert input[at..at + 4] == i[..4]; }
  }
}
