/**
 The chain of input and output pointers shared by the block workers, as a transition system
 over any number of threads.  Every step is one lock operation or one access to the chain.
 */
module IoChain {

  const IOC_SIZE: nat := 33

  type Ptr = int

  /** The work: the first pointers, and how an iteration moves them. */
  datatype Chain = Chain(in0: Ptr, out0: Ptr, nextIn: (nat, Ptr) -> Ptr, nextOut: (nat, Ptr, Ptr) -> Ptr, blocks: nat)

  /** The pointers a serial run gives to iteration `i`. */
  function SerialIn(c: Chain, i: nat): Ptr {
    if i == 0 then c.in0 else c.nextIn(i - 1, SerialIn(c, i - 1))
  }

  function SerialOut(c: Chain, i: nat): Ptr {
    if i == 0 then c.out0 else c.nextOut(i - 1, SerialIn(c, i - 1), SerialOut(c, i - 1))
  }

  // ---------- states ----------

  /**
   How far an iteration `i` has come since it drew its number under the next-lock:
   1 holds in[i], 2 holds in[i+1], 3 holds out[i+1], 4 gave back the next-lock, 5 read in[i],
   6 wrote in[i+1], 7 released in[i+1], 8 holds out[i], 9 read out[i], 10 released out[i],
   11 wrote out[i+1], 12 released out[i+1], 13 released in[i] and is done.
   */
  type Stage = n: nat | n <= 13

  const DONE: Stage := 13

  datatype Iteration = Iteration(stage: Stage, inPtr: Ptr, outPtr: Ptr)

  datatype Thread = Idle | Waiting | Ticket | Running(iter: nat)

  datatype State = State(
    begun: nat, threads: seq<Thread>, iters: seq<Iteration>,
    nextLock: bool, inLock: seq<bool>, outLock: seq<bool>, inPl: seq<Ptr>, outPl: seq<Ptr>)

  function Slot(i: nat): (s: nat)
    ensures s < IOC_SIZE
  {
    i % IOC_SIZE
  }

  predicate Shaped(s: State) {
    |s.inLock| == |s.outLock| == |s.inPl| == |s.outPl| == IOC_SIZE
  }

  predicate Init(c: Chain, s: State) {
    && Shaped(s) && s.begun == 0 && s.iters == [] && !s.nextLock
    && (forall t :: 0 <= t < |s.threads| ==> s.threads[t] == Idle)
    && (forall k :: 0 <= k < IOC_SIZE ==> !s.inLock[k])
    && (forall k :: 0 <= k < IOC_SIZE ==> !s.outLock[k])
    && s.inPl[0] == c.in0 && s.outPl[0] == c.out0
  }

  /** Whether thread `t` has a step: blocked only by a lock, or for want of work. */
  predicate Enabled(c: Chain, s: State, t: nat)
    requires Shaped(s) && t < |s.threads|
  {
    match s.threads[t]
    case Idle => s.begun < c.blocks
    case Waiting => !s.nextLock
    case Ticket => true
    case Running(i) =>
      i < |s.iters| && s.iters[i].stage < DONE &&
      match s.iters[i].stage
      case 0 => !s.inLock[Slot(i)]
      case 1 => !s.inLock[Slot(i + 1)]
      case 2 => !s.outLock[Slot(i + 1)]
      case 7 => !s.outLock[Slot(i)]
      case _ => true
  }

  predicate CanStep(c: Chain, s: State, t: nat) {
    Shaped(s) && t < |s.threads| && Enabled(c, s, t)
  }

  /** What iteration `i` does to the locks and the pointers. */
  function Work(c: Chain, s: State, i: nat): (s': State)
    requires Shaped(s) && i < |s.iters| && s.iters[i].stage < DONE
    ensures Shaped(s') && |s'.iters| == |s.iters| && s'.iters[i].stage == s.iters[i].stage + 1
    ensures forall j :: 0 <= j < |s.iters| && j != i ==> s'.iters[j] == s.iters[j]
    ensures s'.threads == s.threads && s'.begun == s.begun
  {
    var it := s.iters[i];
    var s1 := s.(iters := s.iters[i := it.(stage := it.stage + 1)]);
    match it.stage
    case 0 => s1.(inLock := s.inLock[Slot(i) := true])
    case 1 => s1.(inLock := s.inLock[Slot(i + 1) := true])
    case 2 => s1.(outLock := s.outLock[Slot(i + 1) := true])
    case 3 => s1.(nextLock := false)
    case 4 => s1.(iters := s.iters[i := Iteration(5, s.inPl[Slot(i)], it.outPtr)])
    case 5 => s1.(inPl := s.inPl[Slot(i + 1) := c.nextIn(i, it.inPtr)])
    case 6 => s1.(inLock := s.inLock[Slot(i + 1) := false])
    case 7 => s1.(outLock := s.outLock[Slot(i) := true])
    case 8 => s1.(iters := s.iters[i := Iteration(9, it.inPtr, s.outPl[Slot(i)])])
    case 9 => s1.(outLock := s.outLock[Slot(i) := false])
    case 10 => s1.(outPl := s.outPl[Slot(i + 1) := c.nextOut(i, it.inPtr, it.outPtr)])
    case 11 => s1.(outLock := s.outLock[Slot(i + 1) := false])
    case _ => s1.(inLock := s.inLock[Slot(i) := false])
  }

  function Apply(c: Chain, s: State, t: nat): (s': State)
    requires Shaped(s) && t < |s.threads| && Enabled(c, s, t)
    ensures Shaped(s') && |s'.threads| == |s.threads|
  {
    match s.threads[t]
    case Idle => s.(threads := s.threads[t := Waiting], begun := s.begun + 1)
    case Waiting => s.(threads := s.threads[t := Ticket], nextLock := true)
    case Ticket =>
      s.(threads := s.threads[t := Running(|s.iters|)], iters := s.iters + [Iteration(0, 0, 0)])
    case Running(i) =>
      var s' := Work(c, s, i);
      if s'.iters[i].stage == DONE then s'.(threads := s.threads[t := Idle]) else s'
  }

  ghost predicate Step(c: Chain, s: State, s': State) {
    Shaped(s) && exists t :: 0 <= t < |s.threads| && Enabled(c, s, t) && s' == Apply(c, s, t)
  }

  ghost predicate Run(c: Chain, tr: seq<State>) {
    |tr| > 0 && Init(c, tr[0]) && forall k :: 0 <= k < |tr| - 1 ==> Step(c, tr[k], tr[k + 1])
  }

  // ---------- order between iterations ----------

  /** Only the youngest iteration can be inside the section of the next-lock. */
  predicate Entered(iters: seq<Iteration>) {
    forall i :: 0 <= i < |iters| - 1 ==> 4 <= iters[i].stage
  }

  /** Holding in[i] means the predecessor has set it. */
  predicate AfterIn(iters: seq<Iteration>) {
    forall i :: 0 < i < |iters| && 1 <= iters[i].stage ==> 7 <= iters[i - 1].stage
  }

  /** Holding out[i] means the predecessor has set it. */
  predicate AfterOut(iters: seq<Iteration>) {
    forall i :: 0 < i < |iters| && 8 <= iters[i].stage ==> 12 <= iters[i - 1].stage
  }

  /** Holding in[i] means everything 33 back is done, holding in[i+1] that everything 32 back is. */
  predicate InWindow(iters: seq<Iteration>) {
    && (forall i, k :: 0 <= k && k + IOC_SIZE <= i < |iters| && 1 <= iters[i].stage ==> iters[k].stage == DONE)
    && (forall i, k :: 0 <= k && k + (IOC_SIZE - 1) <= i < |iters| && 2 <= iters[i].stage ==> iters[k].stage == DONE)
  }

  predicate Ordered(iters: seq<Iteration>) {
    Entered(iters) && AfterIn(iters) && AfterOut(iters) && InWindow(iters)
  }

  // ---------- locks ----------

  predicate HoldsIn(iters: seq<Iteration>, i: nat, slot: nat) {
    i < |iters| &&
    ((Slot(i) == slot && 1 <= iters[i].stage < 13) || (Slot(i + 1) == slot && 2 <= iters[i].stage < 7))
  }

  predicate HoldsOut(iters: seq<Iteration>, i: nat, slot: nat) {
    i < |iters| &&
    ((Slot(i) == slot && 8 <= iters[i].stage < 10) || (Slot(i + 1) == slot && 3 <= iters[i].stage < 12))
  }

  /** Which iteration holds the lock of which slot. */
  type Holders = (nat, nat) -> bool

  function InHolders(iters: seq<Iteration>): Holders {
    (i: nat, k: nat) => HoldsIn(iters, i, k)
  }

  function OutHolders(iters: seq<Iteration>): Holders {
    (i: nat, k: nat) => HoldsOut(iters, i, k)
  }

  ghost predicate Free(h: Holders, k: nat) {
    forall i: nat :: !h(i, k)
  }

  /** A lock is set exactly while an iteration holds it, and then only one does. */
  ghost predicate Exclusive(h: Holders, lock: seq<bool>) {
    && |lock| == IOC_SIZE
    && (forall k: nat :: k < IOC_SIZE ==> (lock[k] <==> !Free(h, k)))
    && (forall i: nat, j: nat, k: nat :: h(i, k) && h(j, k) ==> i == j)
  }

  // ---------- pointers ----------

  /** in[k] has been set for iteration `k` and not yet for iteration `k + 33`. */
  predicate InFresh(iters: seq<Iteration>, k: nat) {
    && k <= |iters|
    && (k == 0 || 6 <= iters[k - 1].stage)
    && (k + IOC_SIZE - 1 < |iters| ==> iters[k + IOC_SIZE - 1].stage < 6)
  }

  predicate OutFresh(iters: seq<Iteration>, k: nat) {
    && k <= |iters|
    && (k == 0 || 11 <= iters[k - 1].stage)
    && (k + IOC_SIZE - 1 < |iters| ==> iters[k + IOC_SIZE - 1].stage < 11)
  }

  ghost predicate InSerial(c: Chain, iters: seq<Iteration>, inPl: seq<Ptr>) {
    |inPl| == IOC_SIZE && forall k: nat :: InFresh(iters, k) ==> inPl[Slot(k)] == SerialIn(c, k)
  }

  ghost predicate OutSerial(c: Chain, iters: seq<Iteration>, outPl: seq<Ptr>) {
    |outPl| == IOC_SIZE && forall k: nat :: OutFresh(iters, k) ==> outPl[Slot(k)] == SerialOut(c, k)
  }

  /** Every pointer that an iteration has read is the one of the serial run. */
  predicate ReadsSerial(c: Chain, iters: seq<Iteration>) {
    forall i :: 0 <= i < |iters| ==>
      (5 <= iters[i].stage ==> iters[i].inPtr == SerialIn(c, i)) &&
      (9 <= iters[i].stage ==> iters[i].outPtr == SerialOut(c, i))
  }

  // ---------- the order is kept ----------

  lemma SlotApart(a: nat, b: nat)
    requires a < b && Slot(a) == Slot(b)
    ensures a + IOC_SIZE <= b
  {}

  /** The iterations after `i` has gone one stage further. */
  predicate Advanced(iters: seq<Iteration>, i: nat, iters': seq<Iteration>) {
    && i < |iters| == |iters'| && iters[i].stage < DONE && iters'[i].stage == iters[i].stage + 1
    && forall j :: 0 <= j < |iters| && j != i ==> iters'[j] == iters[j]
  }

  /** What a granted lock tells about the iterations that could have held it. */
  ghost predicate Granted(iters: seq<Iteration>, i: nat)
    requires i < |iters|
  {
    && (iters[i].stage == 0 ==> Free(InHolders(iters), Slot(i)))
    && (iters[i].stage == 1 ==> Free(InHolders(iters), Slot(i + 1)))
    && (iters[i].stage == 2 ==> Free(OutHolders(iters), Slot(i + 1)))
    && (iters[i].stage == 7 ==> Free(OutHolders(iters), Slot(i)))
  }

  lemma OrderedAdvance(iters: seq<Iteration>, i: nat, iters': seq<Iteration>)
    requires Ordered(iters) && Advanced(iters, i, iters') && Granted(iters, i)
    ensures Ordered(iters')
  {
    AfterInAdvance(iters, i, iters');
    AfterOutAdvance(iters, i, iters');
    InWindowAdvance(iters, i, iters');
  }

  lemma AfterInAdvance(iters: seq<Iteration>, i: nat, iters': seq<Iteration>)
    requires Entered(iters) && AfterIn(iters) && Advanced(iters, i, iters') && Granted(iters, i)
    ensures AfterIn(iters')
  {
    if 0 < i && iters[i].stage == 0 {
      assert !InHolders(iters)(i - 1, Slot(i));
    }
  }

  lemma AfterOutAdvance(iters: seq<Iteration>, i: nat, iters': seq<Iteration>)
    requires Entered(iters) && AfterOut(iters) && Advanced(iters, i, iters') && Granted(iters, i)
    ensures AfterOut(iters')
  {
    if 0 < i && iters[i].stage == 7 {
      assert !OutHolders(iters)(i - 1, Slot(i));
    }
  }

  lemma InWindowAdvance(iters: seq<Iteration>, i: nat, iters': seq<Iteration>)
    requires Entered(iters) && InWindow(iters) && Advanced(iters, i, iters') && Granted(iters, i)
    ensures InWindow(iters')
  {
    if iters[i].stage == 0 { WindowIn(iters, i); }
    if iters[i].stage == 1 { WindowNextIn(iters, i); }
  }

  /** A granted in[i] means that everything 33 back is done. */
  lemma WindowIn(iters: seq<Iteration>, i: nat)
    requires Entered(iters) && InWindow(iters) && i < |iters| && iters[i].stage == 0 && Free(InHolders(iters), Slot(i))
    ensures forall k :: 0 <= k && k + IOC_SIZE <= i ==> iters[k].stage == DONE
  {
    if IOC_SIZE <= i {
      assert Slot(i - IOC_SIZE) == Slot(i);
      assert !InHolders(iters)(i - IOC_SIZE, Slot(i));
      assert 1 <= iters[i - 1].stage;
    }
  }

  /** A granted in[i+1] means that everything 32 back is done. */
  lemma WindowNextIn(iters: seq<Iteration>, i: nat)
    requires Entered(iters) && InWindow(iters) && i < |iters| && iters[i].stage == 1 && Free(InHolders(iters), Slot(i + 1))
    ensures forall k :: 0 <= k && k + (IOC_SIZE - 1) <= i ==> iters[k].stage == DONE
  {
    if IOC_SIZE - 1 <= i {
      var k := i - (IOC_SIZE - 1);
      assert Slot(k) == Slot(i + 1);
      assert !InHolders(iters)(k, Slot(i + 1));
    }
  }

  // ---------- the locks are kept ----------

  lemma Acquire(h: Holders, h': Holders, lock: seq<bool>, i: nat, slot: nat)
    requires Exclusive(h, lock) && slot < IOC_SIZE && !lock[slot]
    requires forall j: nat, k: nat :: h'(j, k) <==> h(j, k) || (j == i && k == slot)
    ensures Exclusive(h', lock[slot := true])
  {
    assert h'(i, slot);
    forall k: nat | k < IOC_SIZE && k != slot
      ensures Free(h', k) <==> Free(h, k)
    {
      if !Free(h, k) { var j: nat :| h(j, k); assert h'(j, k); }
      if !Free(h', k) { var j: nat :| h'(j, k); assert h(j, k); }
    }
  }

  lemma Release(h: Holders, h': Holders, lock: seq<bool>, i: nat, slot: nat)
    requires Exclusive(h, lock) && slot < IOC_SIZE && h(i, slot)
    requires forall j: nat, k: nat :: h'(j, k) <==> h(j, k) && !(j == i && k == slot)
    ensures Exclusive(h', lock[slot := false])
  {
    forall k: nat | k < IOC_SIZE && k != slot
      ensures Free(h', k) <==> Free(h, k)
    {
      if !Free(h, k) { var j: nat :| h(j, k); assert h'(j, k); }
      if !Free(h', k) { var j: nat :| h'(j, k); assert h(j, k); }
    }
  }

  lemma Keep(h: Holders, h': Holders, lock: seq<bool>)
    requires Exclusive(h, lock)
    requires forall j: nat, k: nat :: h'(j, k) <==> h(j, k)
    ensures Exclusive(h', lock)
  {
    forall k: nat | k < IOC_SIZE
      ensures Free(h', k) <==> Free(h, k)
    {
      if !Free(h, k) { var j: nat :| h(j, k); assert h'(j, k); }
      if !Free(h', k) { var j: nat :| h'(j, k); assert h(j, k); }
    }
  }

  ghost predicate LocksOk(s: State) {
    Exclusive(InHolders(s.iters), s.inLock) && Exclusive(OutHolders(s.iters), s.outLock)
  }

  lemma HoldsInAfter(iters: seq<Iteration>, i: nat, iters': seq<Iteration>)
    requires Advanced(iters, i, iters')
    ensures forall j: nat, k: nat :: j != i ==> HoldsIn(iters', j, k) == HoldsIn(iters, j, k)
    ensures forall k: nat :: HoldsIn(iters', i, k) <==>
              (HoldsIn(iters, i, k) || (iters[i].stage == 0 && k == Slot(i)) || (iters[i].stage == 1 && k == Slot(i + 1)))
              && !((iters[i].stage == 6 && k == Slot(i + 1)) || (iters[i].stage == 12 && k == Slot(i)))
    ensures iters[i].stage == 6 ==> HoldsIn(iters, i, Slot(i + 1))
    ensures iters[i].stage == 12 ==> HoldsIn(iters, i, Slot(i))
  {}

  lemma HoldsOutAfter(iters: seq<Iteration>, i: nat, iters': seq<Iteration>)
    requires Advanced(iters, i, iters')
    ensures forall j: nat, k: nat :: j != i ==> HoldsOut(iters', j, k) == HoldsOut(iters, j, k)
    ensures forall k: nat :: HoldsOut(iters', i, k) <==>
              (HoldsOut(iters, i, k) || (iters[i].stage == 2 && k == Slot(i + 1)) || (iters[i].stage == 7 && k == Slot(i)))
              && !((iters[i].stage == 9 && k == Slot(i)) || (iters[i].stage == 11 && k == Slot(i + 1)))
    ensures iters[i].stage == 9 ==> HoldsOut(iters, i, Slot(i))
    ensures iters[i].stage == 11 ==> HoldsOut(iters, i, Slot(i + 1))
  {}

  lemma WorkInLock(c: Chain, s: State, i: nat)
    requires Shaped(s) && i < |s.iters| && s.iters[i].stage < DONE
    ensures Work(c, s, i).inLock ==
            match s.iters[i].stage
            case 0 => s.inLock[Slot(i) := true]
            case 1 => s.inLock[Slot(i + 1) := true]
            case 6 => s.inLock[Slot(i + 1) := false]
            case 12 => s.inLock[Slot(i) := false]
            case _ => s.inLock
  {}

  lemma WorkOutLock(c: Chain, s: State, i: nat)
    requires Shaped(s) && i < |s.iters| && s.iters[i].stage < DONE
    ensures Work(c, s, i).outLock ==
            match s.iters[i].stage
            case 2 => s.outLock[Slot(i + 1) := true]
            case 7 => s.outLock[Slot(i) := true]
            case 9 => s.outLock[Slot(i) := false]
            case 11 => s.outLock[Slot(i + 1) := false]
            case _ => s.outLock
  {}

  lemma WorkKeepsInLocks(c: Chain, s: State, i: nat, s': State)
    requires Shaped(s) && i < |s.iters| && s.iters[i].stage < DONE && s' == Work(c, s, i)
    requires Exclusive(InHolders(s.iters), s.inLock)
    requires s.iters[i].stage == 0 ==> !s.inLock[Slot(i)]
    requires s.iters[i].stage == 1 ==> !s.inLock[Slot(i + 1)]
    ensures Exclusive(InHolders(s'.iters), s'.inLock)
  {
    hide Work, Exclusive, Slot, HoldsIn;
    var (h, h') := (InHolders(s.iters), InHolders(s'.iters));
    WorkInLock(c, s, i);
    HoldsInAfter(s.iters, i, s'.iters);
    match s.iters[i].stage
    case 0 => Acquire(h, h', s.inLock, i, Slot(i));
    case 1 => Acquire(h, h', s.inLock, i, Slot(i + 1));
    case 6 => Release(h, h', s.inLock, i, Slot(i + 1));
    case 12 => Release(h, h', s.inLock, i, Slot(i));
    case _ => Keep(h, h', s.inLock);
  }

  lemma WorkKeepsOutLocks(c: Chain, s: State, i: nat, s': State)
    requires Shaped(s) && i < |s.iters| && s.iters[i].stage < DONE && s' == Work(c, s, i)
    requires Exclusive(OutHolders(s.iters), s.outLock)
    requires s.iters[i].stage == 2 ==> !s.outLock[Slot(i + 1)]
    requires s.iters[i].stage == 7 ==> !s.outLock[Slot(i)]
    ensures Exclusive(OutHolders(s'.iters), s'.outLock)
  {
    hide Work, Exclusive, Slot, HoldsOut;
    var (h, h') := (OutHolders(s.iters), OutHolders(s'.iters));
    WorkOutLock(c, s, i);
    HoldsOutAfter(s.iters, i, s'.iters);
    match s.iters[i].stage
    case 2 => Acquire(h, h', s.outLock, i, Slot(i + 1));
    case 7 => Acquire(h, h', s.outLock, i, Slot(i));
    case 9 => Release(h, h', s.outLock, i, Slot(i));
    case 11 => Release(h, h', s.outLock, i, Slot(i + 1));
    case _ => Keep(h, h', s.outLock);
  }

  // ---------- the pointers are kept ----------

  /** When iteration `i` is about to write slot i + 1, the slot's former readers are done. */
  lemma FormerReadersDone(iters: seq<Iteration>, i: nat, k: nat)
    requires Ordered(iters) && i < |iters| && 2 <= iters[i].stage && k < i + 1 && Slot(k) == Slot(i + 1)
    ensures k + IOC_SIZE - 1 <= i && iters[k].stage == DONE
  {
    SlotApart(k, i + 1);
  }

  /** Nothing that is still to be read lies in the slot that `i` writes, in or out. */
  lemma NotOverwritten(iters: seq<Iteration>, i: nat, k: nat)
    requires Ordered(iters) && i < |iters| && 2 <= iters[i].stage < DONE
    requires k <= |iters| && k != i + 1 && Slot(k) == Slot(i + 1)
    requires k == 0 || 2 <= iters[k - 1].stage
    ensures k + IOC_SIZE - 1 <= i && (k + IOC_SIZE - 1 == i || iters[k + IOC_SIZE - 1].stage == DONE)
  {
    if k < i + 1 {
      SlotApart(k, i + 1);
      if k + IOC_SIZE - 1 < i {
        assert Slot(k + IOC_SIZE) == Slot(i + 1);
        SlotApart(k + IOC_SIZE, i + 1);
      }
    } else {
      SlotApart(i + 1, k);
    }
  }

  lemma KeptIn(c: Chain, iters: seq<Iteration>, i: nat, iters': seq<Iteration>, pl: seq<Ptr>, pl': seq<Ptr>)
    requires Ordered(iters) && InSerial(c, iters, pl) && Advanced(iters, i, iters')
    requires pl' == if iters[i].stage == 5 then pl[Slot(i + 1) := SerialIn(c, i + 1)] else pl
    ensures InSerial(c, iters', pl')
  {
    hide Ordered, SerialIn, Slot;
    forall k: nat | InFresh(iters', k)
      ensures pl'[Slot(k)] == SerialIn(c, k)
    {
      if iters[i].stage == 5 && k != i + 1 {
        if Slot(k) == Slot(i + 1) {
          NotOverwritten(iters, i, k);
        }
        assert InFresh(iters, k);
      } else if iters[i].stage != 5 {
        assert InFresh(iters, k);
      }
    }
  }

  lemma WorkKeepsIn(c: Chain, s: State, i: nat, s': State)
    requires Shaped(s) && i < |s.iters| && s.iters[i].stage < DONE && s' == Work(c, s, i)
    requires Ordered(s.iters) && InSerial(c, s.iters, s.inPl) && ReadsSerial(c, s.iters)
    ensures InSerial(c, s'.iters, s'.inPl)
  {
    hide Ordered, InSerial, Slot;
    assert s.iters[i].stage == 5 ==> s.iters[i].inPtr == SerialIn(c, i);
    KeptIn(c, s.iters, i, s'.iters, s.inPl, s'.inPl);
  }

  lemma KeptOut(c: Chain, iters: seq<Iteration>, i: nat, iters': seq<Iteration>, pl: seq<Ptr>, pl': seq<Ptr>)
    requires Ordered(iters) && OutSerial(c, iters, pl) && Advanced(iters, i, iters')
    requires pl' == if iters[i].stage == 10 then pl[Slot(i + 1) := SerialOut(c, i + 1)] else pl
    ensures OutSerial(c, iters', pl')
  {
    hide Ordered, SerialOut, Slot;
    forall k: nat | OutFresh(iters', k)
      ensures pl'[Slot(k)] == SerialOut(c, k)
    {
      if iters[i].stage == 10 && k != i + 1 {
        if Slot(k) == Slot(i + 1) {
          NotOverwritten(iters, i, k);
        }
        assert OutFresh(iters, k);
      } else if iters[i].stage != 10 {
        assert OutFresh(iters, k);
      }
    }
  }

  lemma WorkKeepsOut(c: Chain, s: State, i: nat, s': State)
    requires Shaped(s) && i < |s.iters| && s.iters[i].stage < DONE && s' == Work(c, s, i)
    requires Ordered(s.iters) && OutSerial(c, s.iters, s.outPl) && ReadsSerial(c, s.iters)
    ensures OutSerial(c, s'.iters, s'.outPl)
  {
    hide Ordered, OutSerial, Slot;
    assert s.iters[i].stage == 10 ==> s.iters[i].inPtr == SerialIn(c, i) && s.iters[i].outPtr == SerialOut(c, i);
    KeptOut(c, s.iters, i, s'.iters, s.outPl, s'.outPl);
  }

  lemma WorkKeepsReads(c: Chain, s: State, i: nat, s': State)
    requires Shaped(s) && i < |s.iters| && s.iters[i].stage < DONE && s' == Work(c, s, i)
    requires Ordered(s.iters) && InSerial(c, s.iters, s.inPl) && OutSerial(c, s.iters, s.outPl) && ReadsSerial(c, s.iters)
    ensures ReadsSerial(c, s'.iters)
  {
    hide SerialIn, SerialOut, Slot, Ordered, Work;
    if s.iters[i].stage == 4 { ReadyToRead(s.iters, i); }
    if s.iters[i].stage == 8 { ReadyToRead(s.iters, i); }
    WorkReads(c, s, i);
  }

  lemma ReadyToRead(iters: seq<Iteration>, i: nat)
    requires Ordered(iters) && i < |iters|
    ensures iters[i].stage == 4 ==> InFresh(iters, i)
    ensures iters[i].stage == 8 ==> OutFresh(iters, i)
  {}

  lemma WorkReads(c: Chain, s: State, i: nat)
    requires Shaped(s) && i < |s.iters| && s.iters[i].stage < DONE
    ensures var it := Work(c, s, i).iters[i];
            && it.inPtr == (if s.iters[i].stage == 4 then s.inPl[Slot(i)] else s.iters[i].inPtr)
            && it.outPtr == (if s.iters[i].stage == 8 then s.outPl[Slot(i)] else s.iters[i].outPtr)
  {}

  // ---------- threads ----------

  /** The threads at work and the unfinished iterations are in one-to-one correspondence. */
  ghost predicate ThreadsMatch(s: State) {
    && (forall t :: 0 <= t < |s.threads| && s.threads[t].Running? ==>
          s.threads[t].iter < |s.iters| && s.iters[s.threads[t].iter].stage < DONE)
    && (forall t, u :: 0 <= t < |s.threads| && 0 <= u < |s.threads| && s.threads[t].Running? && s.threads[u] == s.threads[t]
          ==> t == u)
    && (forall i :: 0 <= i < |s.iters| && s.iters[i].stage < DONE ==> Running(i) in s.threads)
  }

  predicate InSection(iters: seq<Iteration>) {
    iters != [] && iters[|iters| - 1].stage < 4
  }

  /** The next-lock is set while one thread has the ticket, or else the youngest iteration keeps it. */
  ghost predicate NextLockMatches(s: State) {
    && (s.nextLock <==> Ticket in s.threads || InSection(s.iters))
    && !(Ticket in s.threads && InSection(s.iters))
    && (forall t, u :: 0 <= t < |s.threads| && 0 <= u < |s.threads| && s.threads[t] == s.threads[u] == Ticket ==> t == u)
  }

  function Pending(th: Thread): nat {
    if th == Waiting || th == Ticket then 1 else 0
  }

  function PendingCount(threads: seq<Thread>): nat {
    if threads == [] then 0 else Pending(threads[0]) + PendingCount(threads[1..])
  }

  ghost predicate Inv(c: Chain, s: State) {
    && Shaped(s) && Ordered(s.iters) && LocksOk(s)
    && InSerial(c, s.iters, s.inPl) && OutSerial(c, s.iters, s.outPl) && ReadsSerial(c, s.iters)
    && ThreadsMatch(s) && NextLockMatches(s)
    && |s.iters| + PendingCount(s.threads) == s.begun <= c.blocks
  }

  lemma {:induction false} PendingUpdate(threads: seq<Thread>, t: nat, th: Thread)
    requires t < |threads|
    ensures PendingCount(threads[t := th]) + Pending(threads[t]) == PendingCount(threads) + Pending(th)
    decreases |threads|
  {
    if t == 0 {
      assert threads[t := th][1..] == threads[1..];
    } else {
      PendingUpdate(threads[1..], t - 1, th);
      assert threads[t := th][1..] == threads[1..][t - 1 := th];
    }
  }

  // ---------- every step keeps the invariant ----------

  lemma RunningKeepsThreads(c: Chain, s: State, t: nat)
    requires Shaped(s) && t < |s.threads| && Enabled(c, s, t) && s.threads[t].Running?
    requires ThreadsMatch(s)
    ensures ThreadsMatch(Apply(c, s, t))
  {
    hide Work;
    var i, s' := s.threads[t].iter, Apply(c, s, t);
    forall j | 0 <= j < |s'.iters| && s'.iters[j].stage < DONE
      ensures Running(j) in s'.threads
    {
      assert s.iters[j].stage < DONE;
      var u :| 0 <= u < |s.threads| && s.threads[u] == Running(j);
      assert s'.threads[u] == Running(j);
    }
  }

  lemma RunningKeepsNextLock(c: Chain, s: State, t: nat)
    requires Shaped(s) && t < |s.threads| && Enabled(c, s, t) && s.threads[t].Running?
    requires NextLockMatches(s) && Entered(s.iters)
    ensures NextLockMatches(Apply(c, s, t))
  {
    var i, s' := s.threads[t].iter, Apply(c, s, t);
    assert Ticket in s.threads <==> Ticket in s'.threads by {
      if Ticket in s.threads {
        var u :| 0 <= u < |s.threads| && s.threads[u] == Ticket;
        assert s'.threads[u] == Ticket;
      }
    }
    assert s'.iters[|s.iters| - 1].stage == s.iters[|s.iters| - 1].stage + if i == |s.iters| - 1 then 1 else 0;
  }

  lemma RunningKeepsInv(c: Chain, s: State, t: nat)
    requires Inv(c, s) && t < |s.threads| && Enabled(c, s, t) && s.threads[t].Running?
    ensures Inv(c, Apply(c, s, t))
  {
    hide Ordered, Exclusive, InSerial, OutSerial, ReadsSerial, ThreadsMatch, NextLockMatches, PendingCount, Work;
    var i := s.threads[t].iter;
    var s' := Work(c, s, i);
    RunningKeepsWork(c, s, i);
    RunningKeepsThreads(c, s, t);
    assert NextLockMatches(Apply(c, s, t)) by {
      OrderedEntered(s.iters);
      RunningKeepsNextLock(c, s, t);
    }
    PendingUpdate(s.threads, t, Idle);
  }

  lemma OrderedEntered(iters: seq<Iteration>)
    requires Ordered(iters)
    ensures Entered(iters)
  {}

  lemma RunningKeepsWork(c: Chain, s: State, i: nat)
    requires Shaped(s) && Ordered(s.iters) && LocksOk(s)
    requires InSerial(c, s.iters, s.inPl) && OutSerial(c, s.iters, s.outPl) && ReadsSerial(c, s.iters)
    requires i < |s.iters| && s.iters[i].stage < DONE
    requires s.iters[i].stage == 0 ==> !s.inLock[Slot(i)]
    requires s.iters[i].stage == 1 ==> !s.inLock[Slot(i + 1)]
    requires s.iters[i].stage == 2 ==> !s.outLock[Slot(i + 1)]
    requires s.iters[i].stage == 7 ==> !s.outLock[Slot(i)]
    ensures var s' := Work(c, s, i);
            && Ordered(s'.iters) && LocksOk(s')
            && InSerial(c, s'.iters, s'.inPl) && OutSerial(c, s'.iters, s'.outPl) && ReadsSerial(c, s'.iters)
  {
    hide Ordered, InSerial, OutSerial, ReadsSerial, Work, InHolders, OutHolders, Free;
    var s' := Work(c, s, i);
    OrderedAdvance(s.iters, i, s'.iters);
    WorkKeepsInLocks(c, s, i, s');
    WorkKeepsOutLocks(c, s, i, s');
    WorkKeepsIn(c, s, i, s');
    WorkKeepsOut(c, s, i, s');
    WorkKeepsReads(c, s, i, s');
  }

  lemma IdleKeepsInv(c: Chain, s: State, t: nat)
    requires Inv(c, s) && t < |s.threads| && Enabled(c, s, t) && s.threads[t].Idle?
    ensures Inv(c, Apply(c, s, t))
  {
    hide Ordered, Exclusive, InSerial, OutSerial, ReadsSerial, PendingCount;
    PendingUpdate(s.threads, t, Waiting);
    ThreadMoves(s, t, Waiting);
    TicketKept(s.threads, t, Waiting);
  }

  lemma WaitingKeepsInv(c: Chain, s: State, t: nat)
    requires Inv(c, s) && t < |s.threads| && Enabled(c, s, t) && s.threads[t].Waiting?
    ensures Inv(c, Apply(c, s, t))
  {
    hide Ordered, Exclusive, InSerial, OutSerial, ReadsSerial, PendingCount;
    PendingUpdate(s.threads, t, Ticket);
    ThreadMoves(s, t, Ticket);
    assert Apply(c, s, t).threads[t] == Ticket;
  }

  lemma TicketKept(threads: seq<Thread>, t: nat, th: Thread)
    requires t < |threads| && threads[t] != Ticket && th != Ticket
    ensures Ticket in threads[t := th] <==> Ticket in threads
  {
    if Ticket in threads {
      var u :| 0 <= u < |threads| && threads[u] == Ticket;
      assert threads[t := th][u] == Ticket;
    }
  }

  lemma ThreadMoves(s: State, t: nat, th: Thread)
    requires ThreadsMatch(s) && t < |s.threads| && !s.threads[t].Running? && !th.Running?
    ensures ThreadsMatch(s.(threads := s.threads[t := th]))
  {
    var threads := s.threads[t := th];
    forall i | 0 <= i < |s.iters| && s.iters[i].stage < DONE
      ensures Running(i) in threads
    {
      var u :| 0 <= u < |s.threads| && s.threads[u] == Running(i);
      assert threads[u] == Running(i);
    }
  }

  // ---------- drawing a number ----------

  lemma DrawKeepsOrder(iters: seq<Iteration>, it: Iteration)
    requires Ordered(iters) && !InSection(iters) && it.stage == 0
    ensures Ordered(iters + [it])
  {}

  lemma DrawKeepsLocks(iters: seq<Iteration>, it: Iteration, inLock: seq<bool>, outLock: seq<bool>)
    requires it.stage == 0 && Exclusive(InHolders(iters), inLock) && Exclusive(OutHolders(iters), outLock)
    ensures Exclusive(InHolders(iters + [it]), inLock) && Exclusive(OutHolders(iters + [it]), outLock)
  {
    Keep(InHolders(iters), InHolders(iters + [it]), inLock);
    Keep(OutHolders(iters), OutHolders(iters + [it]), outLock);
  }

  lemma DrawKeepsPointers(c: Chain, iters: seq<Iteration>, it: Iteration, inPl: seq<Ptr>, outPl: seq<Ptr>)
    requires it.stage == 0 && InSerial(c, iters, inPl) && OutSerial(c, iters, outPl) && ReadsSerial(c, iters)
    ensures InSerial(c, iters + [it], inPl) && OutSerial(c, iters + [it], outPl) && ReadsSerial(c, iters + [it])
  {
    hide SerialIn, SerialOut, Slot;
    forall k: nat | InFresh(iters + [it], k)
      ensures inPl[Slot(k)] == SerialIn(c, k)
    {
      assert InFresh(iters, k);
    }
    forall k: nat | OutFresh(iters + [it], k)
      ensures outPl[Slot(k)] == SerialOut(c, k)
    {
      assert OutFresh(iters, k);
    }
  }

  lemma TicketKeepsThreads(c: Chain, s: State, t: nat)
    requires Shaped(s) && t < |s.threads| && s.threads[t].Ticket? && ThreadsMatch(s)
    ensures ThreadsMatch(Apply(c, s, t))
  {
    var s' := Apply(c, s, t);
    forall i | 0 <= i < |s'.iters| && s'.iters[i].stage < DONE
      ensures Running(i) in s'.threads
    {
      if i == |s.iters| {
        assert s'.threads[t] == Running(i);
      } else {
        var u :| 0 <= u < |s.threads| && s.threads[u] == Running(i);
        assert s'.threads[u] == Running(i);
      }
    }
  }

  lemma TicketPassesNextLock(c: Chain, s: State, t: nat)
    requires Shaped(s) && t < |s.threads| && s.threads[t].Ticket? && NextLockMatches(s)
    ensures NextLockMatches(Apply(c, s, t))
  {
    assert s.threads[t] in s.threads;
    assert Ticket !in Apply(c, s, t).threads;
  }

  lemma TicketKeepsInv(c: Chain, s: State, t: nat)
    requires Inv(c, s) && t < |s.threads| && Enabled(c, s, t) && s.threads[t].Ticket?
    ensures Inv(c, Apply(c, s, t))
  {
    hide Ordered, Exclusive, InSerial, OutSerial, ReadsSerial, ThreadsMatch, PendingCount;
    var it := Iteration(0, 0, 0);
    assert s.threads[t] in s.threads;
    PendingUpdate(s.threads, t, Running(|s.iters|));
    TicketKeepsThreads(c, s, t);
    TicketPassesNextLock(c, s, t);
    DrawKeepsOrder(s.iters, it);
    DrawKeepsLocks(s.iters, it, s.inLock, s.outLock);
    DrawKeepsPointers(c, s.iters, it, s.inPl, s.outPl);
  }

  lemma StepKeepsInv(c: Chain, s: State, s': State)
    requires Inv(c, s) && Step(c, s, s')
    ensures Inv(c, s')
  {
    hide Inv, Apply;
    InvShaped(c, s);
    var t :| 0 <= t < |s.threads| && Enabled(c, s, t) && s' == Apply(c, s, t);
    match s.threads[t]
    case Idle => IdleKeepsInv(c, s, t);
    case Waiting => WaitingKeepsInv(c, s, t);
    case Ticket => TicketKeepsInv(c, s, t);
    case Running(_) => RunningKeepsInv(c, s, t);
  }

  lemma InvShaped(c: Chain, s: State)
    requires Inv(c, s)
    ensures Shaped(s)
  {}

  lemma {:induction false} NoPending(threads: seq<Thread>)
    requires forall t :: 0 <= t < |threads| ==> threads[t] == Idle
    ensures PendingCount(threads) == 0
    decreases |threads|
  {
    if threads != [] { NoPending(threads[1..]); }
  }

  lemma InitInv(c: Chain, s: State)
    requires Init(c, s)
    ensures Inv(c, s)
  {
    NoPending(s.threads);
    assert forall i: nat, k: nat :: !InHolders(s.iters)(i, k) && !OutHolders(s.iters)(i, k);
  }

  lemma {:induction false} RunKeepsInv(c: Chain, tr: seq<State>, k: nat)
    requires Run(c, tr) && k < |tr|
    ensures Inv(c, tr[k])
  {
    hide Inv, Step, Init;
    if k == 0 {
      InitInv(c, tr[0]);
    } else {
      RunKeepsInv(c, tr, k - 1);
      assert Step(c, tr[k - 1], tr[k - 1 + 1]);
      StepKeepsInv(c, tr[k - 1], tr[k]);
    }
  }
}
