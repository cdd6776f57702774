/** A file as a stream of chunks, read ahead by several jobs that finish in any order. */
module FileContent {
  import opened Bytes
  import opened FileRead
  import Matrix

  /** A read under way, or its result. */
  datatype ReadStep = Fut(pos: nat) | Res(pos: nat, result: ReadResult)

  datatype Poll = Pending | Finished | Emits(chunk: seq<byte>) | IoError

  /** What the file has from `from` up to `to`. */
  function Part(file: seq<byte>, from: nat, to: nat): seq<byte> {
    if from >= |file| || to <= from then [] else if to >= |file| then file[from..] else file[from..to]
  }

  /** A read continues what has been given out. */
  lemma PartGrows(file: seq<byte>, start: nat, pos: nat, count: nat)
    requires start <= pos && 0 < count
    ensures Part(file, start, pos) + ReadAt(file, pos, count).buf == Part(file, start, pos + count)
    ensures ReadAt(file, pos, count).eof <==> |file| < pos + count
  {}

  /** The result of a job at `pos`: see the job's contract; jobs in `faulty` fail. */
  function ResultOf(file: seq<byte>, count: nat, faulty: set<nat>, pos: nat): ReadResult {
    if pos in faulty then ReadError else ReadAt(file, pos, count)
  }

  /** The reads in a queue are of consecutive places from `from` up to `to`, and the finished ones have their results. */
  predicate Consecutive(queue: seq<ReadStep>, from: nat, to: nat, file: seq<byte>, count: nat, faulty: set<nat>) {
    && to == from + |queue| * count
    && forall i :: 0 <= i < |queue| ==>
      && queue[i].pos == from + i * count
      && (queue[i].Res? ==> queue[i].result == ResultOf(file, count, faulty, queue[i].pos))
  }

  /** Without its first entry a queue is of consecutive places, too. */
  lemma Shifted(queue: seq<ReadStep>, from: nat, to: nat, file: seq<byte>, count: nat, faulty: set<nat>)
    requires Consecutive(queue, from, to, file, count, faulty) && queue != []
    ensures Consecutive(queue[1..], from + count, to, file, count, faulty) && queue[0].pos == from
    ensures queue[0].Res? ==> queue[0].result == ResultOf(file, count, faulty, from)
  {
    hide ResultOf;
    forall i | 0 <= i < |queue| - 1
      ensures queue[1..][i].pos == (from + count) + i * count
    {
      assert queue[1..][i] == queue[i + 1];
      Longer(i, count);
    }
    Longer(|queue| - 1, count);
  }

  class FileContentStream3 {
    const file: seq<byte>
    const readQueueLen: nat
    const readBufferLen: nat
    const faulty: set<nat>
    var filePos: nat
    var eof: bool
    var queue: seq<ReadStep>
    var done: bool
    var complete: bool

    ghost const start: nat
    ghost var emitted: seq<byte>
    ghost var next: nat
    ghost var failed: bool

    ghost predicate Valid()
      reads this
    {
      && 1 <= readQueueLen && 1 <= readBufferLen && |queue| <= readQueueLen
      && (!done ==> Consecutive(queue, next, filePos, file, readBufferLen, faulty)) && start <= next
      && emitted == Part(file, start, next)
      && (eof ==> |file| < next) && (!eof ==> next == start || next <= |file|)
      && (done && !failed ==> eof && queue == [])
      && (complete ==> done) && (failed ==> done && faulty != {})
    }

    /** More items than are still to come. */
    ghost function Remaining(): nat
      reads this
    {
      if done then 0
      else if eof then |queue| + 1
      else readQueueLen + 1 + if 0 < readBufferLen && next <= |file| then (|file| - next) / readBufferLen else 0
    }

    constructor (content: seq<byte>, position: nat, queueLen: nat, bufferLen: nat, failing: set<nat>)
      requires 1 <= queueLen && 1 <= bufferLen
      ensures Valid() && !complete && !done && emitted == [] && !failed
      ensures file == content && start == position && faulty == failing && readQueueLen == queueLen && readBufferLen == bufferLen
      ensures next == position && !eof && queue == []
    {
      file, readQueueLen, readBufferLen, faulty := content, queueLen, bufferLen, failing;
      filePos, eof, queue, done, complete := position, false, [], false, false;
      start, emitted, next, failed := position, [], position, false;
    }

    /** New reads until the queue is full. */
    method FillQueue()
      requires Valid() && !done
      modifies this`queue, this`filePos
      ensures Valid() && (!eof ==> |queue| == readQueueLen) && (eof ==> queue == old(queue))
      ensures |queue| >= |old(queue)| && queue[..|old(queue)|] == old(queue)
    {
      while !eof && |queue| < readQueueLen
        invariant Valid() && |queue| >= |old(queue)| && queue[..|old(queue)|] == old(queue)
        invariant eof ==> queue == old(queue)
        decreases readQueueLen - |queue|
      {
        Longer(|queue|, readBufferLen);
        queue := queue + [Fut(filePos)];
        filePos := filePos + readBufferLen;
      }
    }

    /** Every read that has finished gets its result. */
    method Collect(ready: set<nat>)
      requires Valid() && !done
      modifies this`queue
      ensures Valid() && |queue| == |old(queue)|
      ensures forall i :: 0 <= i < |queue| ==> queue[i].pos == old(queue)[i].pos && (queue[i].Fut? ==> queue[i].pos !in ready)
    {
      var i := 0;
      while i < |queue|
        invariant 0 <= i <= |queue| == |old(queue)| && Valid()
        invariant forall k :: 0 <= k < |queue| ==> queue[k].pos == old(queue)[k].pos
        invariant forall k :: 0 <= k < i ==> queue[k].Fut? ==> queue[k].pos !in ready
      {
        if queue[i].Fut? && queue[i].pos in ready {
          queue := queue[i := Res(queue[i].pos, ResultOf(file, readBufferLen, faulty, queue[i].pos))];
        }
        i := i + 1;
      }
    }

    /**
     A poll, when the reads in `ready` have finished.  Chunks are given out in the order of the
     file, whatever finishes first; the queue never exceeds its length; and there is something
     to give whenever the first read in the queue has finished.
     */
    method PollNext(ready: set<nat>) returns (r: Poll)
      requires Valid() && !complete
      modifies this
      ensures Valid()
      ensures emitted == old(emitted) + if r.Emits? then r.chunk else []
      ensures r.Pending? ==> queue != [] && queue[0].pos == next == old(next) <= old(filePos) && next !in ready && !done
      ensures r.Finished? <==> complete
      ensures r.Finished? && !failed ==> emitted == Part(file, start, |file|)
      ensures r.IoError? ==> failed
      ensures !r.IoError? ==> failed == old(failed)
      ensures r.Emits? || r.IoError? ==> Remaining() < old(Remaining())
      ensures r.Pending? ==> Remaining() <= old(Remaining())
    {
      assert emitted + [] == emitted;
      if done {
        complete := true;
        if !failed { WholePart(file, start, next); }
        return Finished;
      }
      FillQueue();
      Collect(ready);
      if queue == [] {
        done := true;
        complete := true;
        WholePart(file, start, next);
        return Finished;
      }
      if queue[0].Fut? { return Pending; }
      r := PopFront();
    }

    /** The first read of the queue is given out. */
    method PopFront() returns (r: Poll)
      requires Valid() && !complete && !done && queue != [] && queue[0].Res?
      modifies this
      ensures Valid() && !complete
      ensures emitted == old(emitted) + if r.Emits? then r.chunk else []
      ensures r.Emits? || r.IoError?
      ensures r.IoError? ==> failed
      ensures !r.IoError? ==> failed == old(failed)
      ensures Remaining() < old(Remaining())
    {
      hide Part, ReadAt, Consecutive;
      Shifted(queue, next, filePos, file, readBufferLen, faulty);
      var first := queue[0];
      queue := queue[1..];
      if first.result.ReadError? {
        done, failed := true, true;
        return IoError;
      }
      PartGrows(file, start, next, readBufferLen);
      Fewer(|file|, next, readBufferLen);
      if first.result.eof { eof := true; }
      next := next + readBufferLen;
      emitted := emitted + first.result.buf;
      return Emits(first.result.buf);
    }
  }

  lemma Longer(n: nat, count: nat)
    ensures (n + 1) * count == n * count + count
  {}

  lemma Fewer(size: nat, next: nat, count: nat)
    requires 0 < count
    ensures next + count <= size ==> (size - (next + count)) / count == (size - next) / count - 1
  {
    if next + count <= size {
      var q := (size - (next + count)) / count;
      assert size - next == (q + 1) * count + (size - (next + count)) % count;
      Matrix.AtSplit(q + 1, count, (size - (next + count)) % count);
    }
  }

  lemma WholePart(file: seq<byte>, start: nat, next: nat)
    requires start <= next && |file| < next
    ensures Part(file, start, next) == Part(file, start, |file|)
  {}

  // ---------- a whole stream ----------

  function Joined(chunks: seq<seq<byte>>): seq<byte> {
    if chunks == [] then [] else Joined(chunks[..|chunks| - 1]) + chunks[|chunks| - 1]
  }

  lemma JoinedMore(chunks: seq<seq<byte>>, chunk: seq<byte>)
    ensures Joined(chunks + [chunk]) == Joined(chunks) + chunk
  {
    assert (chunks + [chunk])[..|chunks|] == chunks;
  }

  function UpTo(n: nat): (s: set<nat>)
    ensures forall p: nat :: p in s <==> p <= n
  {
    if n == 0 then {0} else UpTo(n - 1) + {n}
  }

  /**
   Polls to the end.  `schedule` says which reads have finished at each poll, in any order, and
   after it all have.  The chunks joined are the file from the start position to its end.
   */
  method ReadAll(file: seq<byte>, start: nat, queueLen: nat, bufferLen: nat, schedule: seq<set<nat>>) returns (chunks: seq<seq<byte>>)
    requires 1 <= queueLen && 1 <= bufferLen
    ensures Joined(chunks) == Part(file, start, |file|)
    ensures |chunks| <= queueLen + 1 + if start <= |file| then (|file| - start) / bufferLen else 0
  {
    hide Part, Joined;
    var s := new FileContentStream3(file, start, queueLen, bufferLen, {});
    assert Joined([]) == [] by { NothingJoined(); }
    chunks := [];
    var polls := 0;
    ghost var all := s.Remaining();
    while !s.complete
      invariant fresh(s) && s.Valid() && !s.failed && s.start == start && s.file == file && s.faulty == {} && 0 <= polls <= |schedule|
      invariant s.complete ==> s.emitted == Part(file, start, |file|)
      invariant Joined(chunks) == s.emitted
      invariant |chunks| + s.Remaining() <= all
      decreases !s.complete, s.Remaining(), |schedule| - polls
    {
      var ready := if polls < |schedule| then schedule[polls] else UpTo(s.filePos);
      var r := s.PollNext(ready);
      if r.Emits? {
        JoinedMore(chunks, r.chunk);
        chunks := chunks + [r.chunk];
      } else if polls < |schedule| {
        polls := polls + 1;
      }
    }
  }

  lemma NothingJoined()
    ensures Joined([]) == []
  {}
}
