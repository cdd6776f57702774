/** What the pointer chain guarantees over whole runs: serial pointers, no lost slots, no deadlock, an end. */
module IoChainRuns {
  import opened IoChain

  // ---------- what runs guarantee ----------

  /**
   In every state of every run, by any number of threads in any interleaving, every pointer
   that an iteration has read is the one the serial run would have given it.
   */
  lemma ReadsAreSerial(c: Chain, tr: seq<State>, k: nat, i: nat)
    requires Run(c, tr) && k < |tr| && i < |tr[k].iters|
    ensures 5 <= tr[k].iters[i].stage ==> tr[k].iters[i].inPtr == SerialIn(c, i)
    ensures 9 <= tr[k].iters[i].stage ==> tr[k].iters[i].outPtr == SerialOut(c, i)
  {
    hide InSerial, OutSerial, Ordered, LocksOk;
    RunKeepsInv(c, tr, k);
  }

  /**
   When an iteration is about to overwrite a ring slot, every earlier iteration that reads
   this slot is done.
   */
  lemma SlotReadBeforeOverwritten(c: Chain, tr: seq<State>, k: nat, i: nat, j: nat)
    requires Run(c, tr) && k < |tr| && i < |tr[k].iters|
    requires tr[k].iters[i].stage == 5 || tr[k].iters[i].stage == 10
    requires j < i + 1 && Slot(j) == Slot(i + 1)
    ensures j < |tr[k].iters| && tr[k].iters[j].stage == DONE
  {
    hide InSerial, OutSerial, Ordered, LocksOk;
    RunKeepsInv(c, tr, k);
    FormerReadersDone(tr[k].iters, i, j);
  }

  /** Two iterations between taking and giving back the same lock are the same iteration. */
  lemma LocksAreExclusive(c: Chain, tr: seq<State>, k: nat, i: nat, j: nat, slot: nat)
    requires Run(c, tr) && k < |tr|
    requires (HoldsIn(tr[k].iters, i, slot) && HoldsIn(tr[k].iters, j, slot))
          || (HoldsOut(tr[k].iters, i, slot) && HoldsOut(tr[k].iters, j, slot))
    ensures i == j
  {
    hide InSerial, OutSerial, Ordered;
    RunKeepsInv(c, tr, k);
    assert InHolders(tr[k].iters)(i, slot) == HoldsIn(tr[k].iters, i, slot);
    assert InHolders(tr[k].iters)(j, slot) == HoldsIn(tr[k].iters, j, slot);
    assert OutHolders(tr[k].iters)(i, slot) == HoldsOut(tr[k].iters, i, slot);
    assert OutHolders(tr[k].iters)(j, slot) == HoldsOut(tr[k].iters, j, slot);
  }

  // ---------- progress ----------

  predicate Finished(c: Chain, s: State) {
    s.begun == c.blocks && forall t :: 0 <= t < |s.threads| ==> s.threads[t] == Idle
  }

  /** A set lock has a holder. */
  lemma Holder(h: Holders, lock: seq<bool>, k: nat) returns (i: nat)
    requires Exclusive(h, lock) && k < IOC_SIZE && lock[k]
    ensures h(i, k)
  {
    i :| h(i, k);
  }

  /** The oldest unfinished iteration is never blocked, even by a ticket holder 32 iterations ahead. */
  lemma OldestCanStep(c: Chain, s: State, m: nat, t: nat)
    requires Inv(c, s) && m < |s.iters| && s.iters[m].stage < DONE
    requires forall k :: 0 <= k < m ==> s.iters[k].stage == DONE
    requires t < |s.threads| && s.threads[t] == Running(m)
    ensures Enabled(c, s, t)
  {
    hide InSerial, OutSerial, ReadsSerial, ThreadsMatch, NextLockMatches, PendingCount, Exclusive;
    match s.iters[m].stage
    case 0 => if s.inLock[Slot(m)] { var i := Holder(InHolders(s.iters), s.inLock, Slot(m)); NoHolderIn(s.iters, m, i, Slot(m)); }
    case 1 => if s.inLock[Slot(m + 1)] { var i := Holder(InHolders(s.iters), s.inLock, Slot(m + 1)); NoHolderIn(s.iters, m, i, Slot(m + 1)); }
    case 2 => if s.outLock[Slot(m + 1)] { var i := Holder(OutHolders(s.iters), s.outLock, Slot(m + 1)); NoHolderOut(s.iters, m, i, Slot(m + 1)); }
    case 7 => if s.outLock[Slot(m)] { var i := Holder(OutHolders(s.iters), s.outLock, Slot(m)); NoHolderOut(s.iters, m, i, Slot(m)); }
    case _ =>
  }

  lemma NoHolderIn(iters: seq<Iteration>, m: nat, i: nat, slot: nat)
    requires Ordered(iters) && m < |iters|
    requires forall k :: 0 <= k < m ==> iters[k].stage == DONE
    requires (iters[m].stage == 0 && slot == Slot(m)) || (iters[m].stage == 1 && slot == Slot(m + 1))
    ensures !HoldsIn(iters, i, slot)
  {}

  lemma NoHolderOut(iters: seq<Iteration>, m: nat, i: nat, slot: nat)
    requires Ordered(iters) && m < |iters|
    requires forall k :: 0 <= k < m ==> iters[k].stage == DONE
    requires (iters[m].stage == 2 && slot == Slot(m + 1)) || (iters[m].stage == 7 && slot == Slot(m))
    ensures !HoldsOut(iters, i, slot)
  {
    if HoldsOut(iters, i, slot) && m < i {
      if Slot(i) == slot { SlotApart(m, i); } else { SlotApart(m, i + 1); }
    }
  }

  lemma {:induction false} Oldest(iters: seq<Iteration>, n: nat) returns (m: nat)
    requires n <= |iters| && exists k :: 0 <= k < n && iters[k].stage < DONE
    ensures m < n && iters[m].stage < DONE && forall k :: 0 <= k < m ==> iters[k].stage == DONE
    decreases n
  {
    if exists k :: 0 <= k < n - 1 && iters[k].stage < DONE {
      m := Oldest(iters, n - 1);
    } else {
      m := n - 1;
    }
  }

  /** No reachable state is stuck: with at least one thread, some thread can step until all is done. */
  lemma NoDeadlock(c: Chain, s: State) returns (t: nat)
    requires Inv(c, s) && |s.threads| > 0 && !Finished(c, s)
    ensures t < |s.threads| && Enabled(c, s, t)
  {
    hide InSerial, OutSerial, ReadsSerial, PendingCount, LocksOk, Ordered;
    if exists i :: 0 <= i < |s.iters| && s.iters[i].stage < DONE {
      var m := Oldest(s.iters, |s.iters|);
      assert Running(m) in s.threads;
      t :| 0 <= t < |s.threads| && s.threads[t] == Running(m);
      OldestCanStep(c, s, m, t);
    } else if Ticket in s.threads {
      t :| 0 <= t < |s.threads| && s.threads[t] == Ticket;
    } else if Waiting in s.threads {
      t :| 0 <= t < |s.threads| && s.threads[t] == Waiting;
    } else {
      assert s.threads[0] in s.threads;
      t := 0;
      assert forall u :: 0 <= u < |s.threads| ==> s.threads[u] in s.threads && s.threads[u] == Idle;
    }
  }

  ghost predicate Stuck(c: Chain, s: State) {
    forall t: nat :: !CanStep(c, s, t)
  }

  /** Steps taken so far: up to 16 for each block. */
  function Spent(threads: seq<Thread>): nat {
    if threads == [] then 0
    else (match threads[0] case Waiting => 1 case Ticket => 2 case _ => 0) + Spent(threads[1..])
  }

  function Stages(iters: seq<Iteration>): nat {
    if iters == [] then 0 else 3 + iters[0].stage + Stages(iters[1..])
  }

  function StepsTaken(s: State): nat {
    Spent(s.threads) + Stages(s.iters)
  }

  lemma {:induction false} SpentUpdate(threads: seq<Thread>, t: nat, th: Thread)
    requires t < |threads|
    ensures Spent(threads[t := th]) + Spent([threads[t]]) == Spent(threads) + Spent([th])
    decreases |threads|
  {
    assert [threads[t]][1..] == [] && [th][1..] == [];
    if t == 0 {
      assert threads[t := th][1..] == threads[1..];
    } else {
      SpentUpdate(threads[1..], t - 1, th);
      assert threads[t := th][1..] == threads[1..][t - 1 := th];
    }
  }

  lemma {:induction false} StagesUpdate(iters: seq<Iteration>, i: nat, it: Iteration)
    requires i < |iters|
    ensures Stages(iters[i := it]) + iters[i].stage == Stages(iters) + it.stage
    decreases |iters|
  {
    if i == 0 {
      assert iters[i := it][1..] == iters[1..];
    } else {
      StagesUpdate(iters[1..], i - 1, it);
      assert iters[i := it][1..] == iters[1..][i - 1 := it];
    }
  }

  lemma {:induction false} StagesAppend(iters: seq<Iteration>, it: Iteration)
    ensures Stages(iters + [it]) == Stages(iters) + 3 + it.stage
    decreases |iters|
  {
    if iters == [] {
      assert [it][1..] == [];
      assert iters + [it] == [it];
    } else {
      StagesAppend(iters[1..], it);
      assert (iters + [it])[1..] == iters[1..] + [it];
    }
  }

  lemma EveryStepCounts(c: Chain, s: State, t: nat)
    requires Shaped(s) && t < |s.threads| && Enabled(c, s, t)
    ensures StepsTaken(Apply(c, s, t)) == StepsTaken(s) + 1
  {
    var s' := Apply(c, s, t);
    match s.threads[t]
    case Idle => SpentUpdate(s.threads, t, Waiting);
    case Waiting => SpentUpdate(s.threads, t, Ticket);
    case Ticket =>
      SpentUpdate(s.threads, t, Running(|s.iters|));
      StagesAppend(s.iters, Iteration(0, 0, 0));
    case Running(i) =>
      SpentUpdate(s.threads, t, Idle);
      StagesUpdate(s.iters, i, s'.iters[i]);
      assert s'.iters == s.iters[i := s'.iters[i]];
  }

  lemma {:induction false} StagesBound(iters: seq<Iteration>)
    ensures Stages(iters) <= 16 * |iters|
    decreases |iters|
  {
    if iters != [] { StagesBound(iters[1..]); }
  }

  lemma {:induction false} SpentBound(threads: seq<Thread>)
    ensures Spent(threads) <= 2 * PendingCount(threads)
    decreases |threads|
  {
    if threads != [] { SpentBound(threads[1..]); }
  }

  lemma {:induction false} NothingSpent(threads: seq<Thread>)
    requires forall t :: 0 <= t < |threads| ==> threads[t] == Idle
    ensures Spent(threads) == 0
    decreases |threads|
  {
    if threads != [] { NothingSpent(threads[1..]); }
  }

  lemma {:induction false} StepsAreCounted(c: Chain, tr: seq<State>, k: nat)
    requires Run(c, tr) && k < |tr|
    ensures StepsTaken(tr[k]) == k
  {
    hide Apply, Enabled;
    if k == 0 {
      NothingSpent(tr[0].threads);
    } else {
      StepsAreCounted(c, tr, k - 1);
      assert Step(c, tr[k - 1], tr[k - 1 + 1]);
      var t :| 0 <= t < |tr[k - 1].threads| && Enabled(c, tr[k - 1], t) && tr[k] == Apply(c, tr[k - 1], t);
      EveryStepCounts(c, tr[k - 1], t);
    }
  }

  /** Every run ends: it has at most 16 steps for each block. */
  lemma RunsAreBounded(c: Chain, tr: seq<State>)
    requires Run(c, tr)
    ensures |tr| - 1 <= 16 * c.blocks
  {
    var s := tr[|tr| - 1];
    StepsAreCounted(c, tr, |tr| - 1);
    RunKeepsInv(c, tr, |tr| - 1);
    InvCounts(c, s);
    StagesBound(s.iters);
    SpentBound(s.threads);
  }

  lemma InvCounts(c: Chain, s: State)
    requires Inv(c, s)
    ensures |s.iters| + PendingCount(s.threads) == s.begun <= c.blocks
  {}

  /**
   A run that can not go on has done all blocks, and leaves the pointers where the serial run
   leaves them.
   */
  lemma StuckRunIsComplete(c: Chain, tr: seq<State>)
    requires Run(c, tr) && |tr[|tr| - 1].threads| > 0
    requires Stuck(c, tr[|tr| - 1])
    ensures var s := tr[|tr| - 1];
            && |s.iters| == c.blocks && (forall i :: 0 <= i < |s.iters| ==> s.iters[i].stage == DONE)
            && Shaped(s)
            && s.inPl[Slot(c.blocks)] == SerialIn(c, c.blocks)
            && s.outPl[Slot(c.blocks)] == SerialOut(c, c.blocks)
  {
    var s := tr[|tr| - 1];
    RunKeepsInv(c, tr, |tr| - 1);
    InvShaped(c, s);
    if !Finished(c, s) {
      var t := NoDeadlock(c, s);
      assert CanStep(c, s, t);
    }
    FinishedIsSerial(c, s);
  }

  lemma FinishedIsSerial(c: Chain, s: State)
    requires Inv(c, s) && Finished(c, s)
    ensures |s.iters| == c.blocks && forall i :: 0 <= i < |s.iters| ==> s.iters[i].stage == DONE
    ensures s.inPl[Slot(c.blocks)] == SerialIn(c, c.blocks)
    ensures s.outPl[Slot(c.blocks)] == SerialOut(c, c.blocks)
  {
    hide Ordered, LocksOk, ReadsSerial, NextLockMatches, Slot, SerialIn, SerialOut;
    NoPending(s.threads);
    forall i | 0 <= i < |s.iters|
      ensures s.iters[i].stage == DONE
    {
      assert Running(i) !in s.threads;
    }
    assert InFresh(s.iters, c.blocks) && OutFresh(s.iters, c.blocks);
  }
}
