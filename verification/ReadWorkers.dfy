/** The reader threads: one job receiver, handed from thread to thread through a channel. */
module ReadWorkers {

  /** A thread sleeps or waits for the receiver, holds it and waits for a job, works on a job, or has ended. */
  datatype Worker = Waiting | Holding | Working(job: nat) | Ended

  /**
   The receivers in the channel, the jobs sent but not taken, whether the sender is gone, and what
   every thread does; all jobs sent so far, and those finished, in the order of their finishing.
   */
  datatype State = State(channel: nat, jobs: seq<nat>, closed: bool, workers: seq<Worker>, threadsMax: nat,
                         sent: seq<nat>, taken: seq<nat>, finished: seq<nat>)

  predicate Init(s: State) {
    && s.channel == 1 && s.jobs == [] && !s.closed && s.sent == [] && s.taken == [] && s.finished == []
    && forall w :: 0 <= w < |s.workers| ==> s.workers[w] == Waiting
  }

  datatype Step =
    | Send(job: nat)            // a reader asks for bytes
    | Close                     // the sender goes away
    | SetMax(max: nat)
    | TakeReceiver(w: nat)      // from the channel
    | TakeJob(w: nat)           // the receiver goes back to the channel, and the thread to work
    | SeeClosed(w: nat)         // likewise, and the thread ends
    | Finish(w: nat)

  predicate Enabled(s: State, step: Step) {
    match step
    case Send(_) => !s.closed
    case Close => true
    case SetMax(_) => true
    case TakeReceiver(w) => w < |s.workers| && w < s.threadsMax && s.workers[w].Waiting? && s.channel > 0
    case TakeJob(w) => w < |s.workers| && s.workers[w].Holding? && s.jobs != []
    case SeeClosed(w) => w < |s.workers| && s.workers[w].Holding? && s.jobs == [] && s.closed
    case Finish(w) => w < |s.workers| && s.workers[w].Working?
  }

  function Apply(s: State, step: Step): State
    requires Enabled(s, step)
  {
    match step
    case Send(job) => s.(jobs := s.jobs + [job], sent := s.sent + [job])
    case Close => s.(closed := true)
    case SetMax(max) => s.(threadsMax := max)
    case TakeReceiver(w) => s.(channel := s.channel - 1, workers := s.workers[w := Holding])
    case TakeJob(w) =>
      s.(jobs := s.jobs[1..], channel := s.channel + 1, workers := s.workers[w := Working(s.jobs[0])], taken := s.taken + [s.jobs[0]])
    case SeeClosed(w) => s.(channel := s.channel + 1, workers := s.workers[w := Ended])
    case Finish(w) => s.(workers := s.workers[w := Waiting], finished := s.finished + [s.workers[w].job])
  }

  predicate IsRun(run: seq<State>, steps: seq<Step>) {
    && |run| == |steps| + 1 && Init(run[0])
    && forall i :: 0 <= i < |steps| ==> Enabled(run[i], steps[i]) && run[i + 1] == Apply(run[i], steps[i])
  }

  // ---------- counting ----------

  function Holders(workers: seq<Worker>): nat {
    if workers == [] then 0 else Holders(workers[..|workers| - 1]) + if workers[|workers| - 1].Holding? then 1 else 0
  }

  /** How many threads work on job `j`, and how often it is in a list. */
  function Busy(workers: seq<Worker>, j: nat): nat {
    if workers == [] then 0 else Busy(workers[..|workers| - 1], j) + if workers[|workers| - 1] == Working(j) then 1 else 0
  }

  function Times(jobs: seq<nat>, j: nat): nat {
    if jobs == [] then 0 else Times(jobs[..|jobs| - 1], j) + if jobs[|jobs| - 1] == j then 1 else 0
  }

  lemma OnceMore(jobs: seq<nat>, job: nat, j: nat)
    ensures Times(jobs + [job], j) == Times(jobs, j) + if job == j then 1 else 0
  {
    assert (jobs + [job])[..|jobs|] == jobs;
  }

  lemma {:induction false} HoldersChanged(workers: seq<Worker>, w: nat, x: Worker)
    requires w < |workers|
    ensures Holders(workers[w := x]) + (if workers[w].Holding? then 1 else 0) == Holders(workers) + if x.Holding? then 1 else 0
    decreases |workers|
  {
    var n := |workers| - 1;
    if w < n {
      assert workers[w := x][..n] == workers[..n][w := x];
      HoldersChanged(workers[..n], w, x);
    } else {
      assert workers[w := x][..n] == workers[..n];
    }
  }

  lemma {:induction false} BusyChanged(workers: seq<Worker>, w: nat, x: Worker, j: nat)
    requires w < |workers|
    ensures Busy(workers[w := x], j) + (if workers[w] == Working(j) then 1 else 0) == Busy(workers, j) + if x == Working(j) then 1 else 0
    decreases |workers|
  {
    var n := |workers| - 1;
    if w < n {
      assert workers[w := x][..n] == workers[..n][w := x];
      BusyChanged(workers[..n], w, x, j);
    } else {
      assert workers[w := x][..n] == workers[..n];
    }
  }

  lemma {:induction false} NoneHolds(workers: seq<Worker>)
    requires forall w :: 0 <= w < |workers| ==> workers[w] == Waiting
    ensures Holders(workers) == 0 && forall j :: Busy(workers, j) == 0
  {
    if workers != [] { NoneHolds(workers[..|workers| - 1]); }
  }

  lemma {:induction false} HolderExists(workers: seq<Worker>) returns (w: nat)
    requires Holders(workers) > 0
    ensures w < |workers| && workers[w].Holding?
  {
    w := |workers| - 1;
    if !workers[w].Holding? { w := HolderExists(workers[..w]); }
  }

  // ---------- what every run keeps ----------

  /** The receiver is in the channel or with one thread. */
  predicate OneReceiver(s: State) {
    s.channel + Holders(s.workers) == 1
  }

  /** Jobs are taken in the order they were sent. */
  predicate InOrder(s: State) {
    s.taken + s.jobs == s.sent
  }

  /** A job that was taken is worked on or finished, once. */
  predicate NotLost(s: State, j: nat) {
    Times(s.taken, j) == Busy(s.workers, j) + Times(s.finished, j)
  }

  /** A thread ends only when no job will come any more. */
  predicate Drained(s: State) {
    forall w :: 0 <= w < |s.workers| && s.workers[w].Ended? ==> s.closed && s.jobs == []
  }

  ghost predicate Inv(s: State) {
    OneReceiver(s) && InOrder(s) && Drained(s) && forall j :: NotLost(s, j)
  }

  lemma InitInv(s: State)
    requires Init(s)
    ensures Inv(s)
  {
    NoneHolds(s.workers);
  }

  lemma StepKeepsReceiver(s: State, step: Step)
    requires OneReceiver(s) && Enabled(s, step)
    ensures OneReceiver(Apply(s, step))
  {
    hide Holders;
    match step
    case Send(_) =>
    case Close =>
    case SetMax(_) =>
    case TakeReceiver(w) => HoldersChanged(s.workers, w, Holding);
    case TakeJob(w) => HoldersChanged(s.workers, w, Working(s.jobs[0]));
    case SeeClosed(w) => HoldersChanged(s.workers, w, Ended);
    case Finish(w) => HoldersChanged(s.workers, w, Waiting);
  }

  lemma StepKeepsOrder(s: State, step: Step)
    requires InOrder(s) && Enabled(s, step)
    ensures InOrder(Apply(s, step))
  {
    if step.Send? { assert s.taken + (s.jobs + [step.job]) == s.taken + s.jobs + [step.job]; }
    if step.TakeJob? { assert s.taken + [s.jobs[0]] + s.jobs[1..] == s.taken + s.jobs; }
  }

  lemma StepKeepsDrained(s: State, step: Step)
    requires Drained(s) && Enabled(s, step)
    ensures Drained(Apply(s, step))
  {}

  lemma StepKeepsJob(s: State, step: Step, j: nat)
    requires NotLost(s, j) && Enabled(s, step)
    ensures NotLost(Apply(s, step), j)
  {
    hide Times, Busy;
    match step
    case Send(_) =>
    case Close =>
    case SetMax(_) =>
    case TakeReceiver(w) => BusyChanged(s.workers, w, Holding, j);
    case TakeJob(w) =>
      BusyChanged(s.workers, w, Working(s.jobs[0]), j);
      OnceMore(s.taken, s.jobs[0], j);
    case SeeClosed(w) => BusyChanged(s.workers, w, Ended, j);
    case Finish(w) =>
      BusyChanged(s.workers, w, Waiting, j);
      OnceMore(s.finished, s.workers[w].job, j);
  }

  lemma StepKeepsInv(s: State, step: Step)
    requires Inv(s) && Enabled(s, step)
    ensures Inv(Apply(s, step))
  {
    hide OneReceiver, InOrder, Drained, NotLost, Apply, Enabled;
    StepKeepsReceiver(s, step);
    StepKeepsOrder(s, step);
    StepKeepsDrained(s, step);
    forall j
      ensures NotLost(Apply(s, step), j)
    {
      StepKeepsJob(s, step, j);
    }
  }

  lemma {:induction false} RunKeepsInv(run: seq<State>, steps: seq<Step>, k: nat)
    requires IsRun(run, steps) && k < |run|
    ensures Inv(run[k])
  {
    hide Inv, Apply, Enabled;
    if k == 0 {
      InitInv(run[0]);
    } else {
      RunKeepsInv(run, steps, k - 1);
      StepKeepsInv(run[k - 1], steps[k - 1]);
      assert run[k - 1 + 1] == Apply(run[k - 1], steps[k - 1]);
    }
  }

  lemma {:induction false} TwoHolders(workers: seq<Worker>, v: nat, w: nat)
    requires v < w < |workers| && workers[v].Holding? && workers[w].Holding?
    ensures Holders(workers) >= 2
    decreases |workers|
  {
    var n := |workers| - 1;
    if w < n { TwoHolders(workers[..n], v, w); } else { OneAtLeast(workers[..n], v); }
  }

  lemma {:induction false} OneAtLeast(workers: seq<Worker>, w: nat)
    requires w < |workers| && workers[w].Holding?
    ensures Holders(workers) >= 1
    decreases |workers|
  {
    if w < |workers| - 1 { OneAtLeast(workers[..|workers| - 1], w); }
  }

  /** In every run, at every moment, the receiver is in one place. */
  lemma ReceiverIsInOnePlace(run: seq<State>, steps: seq<Step>, k: nat, v: nat, w: nat)
    requires IsRun(run, steps) && k < |run|
    ensures run[k].channel <= 1
    ensures v < |run[k].workers| && run[k].workers[v].Holding? ==> run[k].channel == 0
    ensures v < w < |run[k].workers| && run[k].workers[v].Holding? ==> !run[k].workers[w].Holding?
  {
    var workers := run[k].workers;
    RunKeepsInv(run, steps, k);
    if v < |workers| && workers[v].Holding? {
      OneAtLeast(workers, v);
      if v < w < |workers| && workers[w].Holding? { TwoHolders(workers, v, w); }
    }
  }

  lemma {:induction false} NoneBusy(workers: seq<Worker>, j: nat)
    requires forall w :: 0 <= w < |workers| ==> !workers[w].Working?
    ensures Busy(workers, j) == 0
  {
    if workers != [] { NoneBusy(workers[..|workers| - 1], j); }
  }

  /** Once a thread has ended every job sent is taken; if no thread is at work, each is finished as often as it was sent. */
  lemma EndedHaveFinished(run: seq<State>, steps: seq<Step>, k: nat, v: nat, j: nat)
    requires IsRun(run, steps) && k < |run| && v < |run[k].workers| && run[k].workers[v].Ended?
    ensures run[k].closed && run[k].taken == run[k].sent
    ensures (forall w :: 0 <= w < |run[k].workers| ==> !run[k].workers[w].Working?) ==> Times(run[k].finished, j) == Times(run[k].sent, j)
  {
    var s := run[k];
    RunKeepsInv(run, steps, k);
    assert s.taken + [] == s.taken;
    assert NotLost(s, j);
    if forall w :: 0 <= w < |s.workers| ==> !s.workers[w].Working? { NoneBusy(s.workers, j); }
  }

  /** A job that waits does not wait for nothing: a thread holds the receiver and can take it, or the receiver can be taken. */
  lemma WaitingJobCanBeTaken(run: seq<State>, steps: seq<Step>, k: nat, v: nat) returns (step: Step)
    requires IsRun(run, steps) && k < |run| && run[k].jobs != []
    requires v < |run[k].workers| && v < run[k].threadsMax && run[k].workers[v].Waiting?
    ensures Enabled(run[k], step) && (step.TakeJob? || step.TakeReceiver?)
  {
    RunKeepsInv(run, steps, k);
    if run[k].channel > 0 {
      step := TakeReceiver(v);
    } else {
      var w := HolderExists(run[k].workers);
      step := TakeJob(w);
    }
  }
}
