/** One read job of the reader threads: as many calls of pread as it takes. */
module FileRead {
  import opened Bytes

  /** What a call of pread gives: an error, or a number of bytes that is 0 at the end of the file. */
  datatype Pread = Count(n: nat) | EndOfFile | Failed

  datatype ReadResult = ReadResult(buf: seq<byte>, eof: bool) | ReadError

  /** What a read of `count` bytes at `pos` is to give. */
  function ReadAt(file: seq<byte>, pos: nat, count: nat): (r: ReadResult)
    ensures r.ReadResult? && |r.buf| <= count && (r.eof <==> |r.buf| < count)
  {
    if pos >= |file| then ReadResult([], 0 < count)
    else if pos + count <= |file| then ReadResult(file[pos..pos + count], false)
    else ReadResult(file[pos..], true)
  }

  function Available(file: seq<byte>, rpos: nat, writable: nat): (n: nat)
    ensures n <= writable && (rpos + n <= |file| || n == 0)
  {
    if rpos >= |file| then 0 else if rpos + writable <= |file| then writable else |file| - rpos
  }

  /** A call answers as it may: nothing only at the end of the file, and otherwise no more than there is. */
  predicate Allowed(p: Pread, file: seq<byte>, rpos: nat, writable: nat) {
    match p
    case Count(n) => n <= Available(file, rpos, writable) && (n == 0 ==> Available(file, rpos, writable) == 0)
    case EndOfFile => Available(file, rpos, writable) == 0
    case Failed => true
  }

  /** The answers to the calls of a job, one after the other, until the buffer is full, the file ends or a call fails. */
  predicate Answers(calls: seq<Pread>, file: seq<byte>, rpos: nat, writable: nat)
    decreases |calls|
  {
    calls != [] && Allowed(calls[0], file, rpos, writable) &&
    (Ends(calls[0]) || calls[0].n == writable || Answers(calls[1..], file, rpos + calls[0].n, writable - calls[0].n))
  }

  predicate Ends(p: Pread) {
    p.EndOfFile? || p.Failed? || p.n == 0
  }

  /** A call fails before the job has come to its end. */
  predicate Breaks(calls: seq<Pread>, writable: nat)
    decreases |calls|
  {
    calls != [] && (calls[0].Failed? || (!Ends(calls[0]) && calls[0].n < writable && Breaks(calls[1..], writable - calls[0].n)))
  }

  /** The bytes of the last answer that had any. */
  function LastCount(calls: seq<Pread>, writable: nat): nat {
    if calls == [] || Ends(calls[0]) then 0
    else if calls[0].n >= writable then calls[0].n
    else
      var later := LastCount(calls[1..], writable - calls[0].n);
      if later == 0 then calls[0].n else later
  }

  /** The first answer has all there is, as for plain files. */
  predicate Full(calls: seq<Pread>, file: seq<byte>, rpos: nat, writable: nat) {
    calls != [] && calls[0].Count? ==> calls[0].n == Available(file, rpos, writable)
  }

  /** What the calls leave in the buffer: every call writes to its start, wherever the read has got to. */
  function Left(calls: seq<Pread>, file: seq<byte>, rpos: nat, writable: nat, buf: seq<byte>): (r: seq<byte>)
    requires Answers(calls, file, rpos, writable) && writable <= |buf|
    ensures |r| == |buf|
    decreases |calls|
  {
    if Ends(calls[0]) then buf
    else
      var (n, written) := (calls[0].n, file[rpos..rpos + calls[0].n] + buf[calls[0].n..]);
      if n == writable then written else Left(calls[1..], file, rpos + n, writable - n, written)
  }

  /** What a job delivers, given what the memory of its buffer held before. */
  function JobResult(file: seq<byte>, pos: nat, count: nat, calls: seq<Pread>, memory: seq<byte>): ReadResult
    requires Answers(calls, file, pos, count) && |memory| == count
  {
    if Breaks(calls, count) then ReadError
    else
      var n := Available(file, pos, count);
      ReadResult(Left(calls, file, pos, count, memory)[..n], n < count)
  }

  /** The system call writes where the buffer starts. */
  method Transfer(buf: array<byte>, file: seq<byte>, rpos: nat, n: nat)
    requires n <= buf.Length && rpos + n <= |file|
    modifies buf
    ensures buf[..] == file[rpos..rpos + n] + old(buf[n..])
  {
    forall i | 0 <= i < n { buf[i] := file[rpos + i]; }
  }

  /** The job, from the point where `len` bytes have been read. */
  ghost predicate Continues(file: seq<byte>, pos: nat, count: nat, calls: seq<Pread>, memory: seq<byte>,
                            more: seq<Pread>, len: nat, writable: nat, buf: seq<byte>) {
    && |memory| == count == |buf| && len + writable == count && 0 < writable
    && Answers(calls, file, pos, count) && Answers(more, file, pos + len, writable)
    && (len > 0 ==> pos + len <= |file|)
    && (Breaks(calls, count) <==> Breaks(more, writable))
    && Left(calls, file, pos, count, memory) == Left(more, file, pos + len, writable, buf)
  }

  /** One call more. */
  lemma OneCall(file: seq<byte>, pos: nat, count: nat, calls: seq<Pread>, memory: seq<byte>,
                more: seq<Pread>, len: nat, writable: nat, buf: seq<byte>)
    requires Continues(file, pos, count, calls, memory, more, len, writable, buf)
    ensures more != []
    ensures more[0].Failed? ==> JobResult(file, pos, count, calls, memory) == ReadError
    ensures Ends(more[0]) && !more[0].Failed? ==> JobResult(file, pos, count, calls, memory) == ReadResult(buf[..len], true)
    ensures !Ends(more[0]) ==>
      var n := more[0].n;
      && 0 < n <= writable && pos + len + n <= |file|
      && var written := file[pos + len..pos + len + n] + buf[n..];
      if n == writable then JobResult(file, pos, count, calls, memory) == ReadResult(written[..len + n], false)
      else Continues(file, pos, count, calls, memory, more[1..], len + n, writable - n, written)
  {}

  /**
   The job.  As it delivers what `JobResult` says, what comes of short answers can be read off
   that function.
   */
  method ReadWorkerJob(file: seq<byte>, pos: nat, count: nat, calls: seq<Pread>, memory: seq<byte>) returns (r: ReadResult)
    requires 0 < count == |memory| && Answers(calls, file, pos, count)
    ensures r == JobResult(file, pos, count, calls, memory)
  {
    hide Answers, Allowed, Continues, JobResult;
    var buf := new byte[count](i requires 0 <= i < count => memory[i]);
    assert buf[..] == memory;
    var len: nat, rpos: nat, writable: nat, prc: nat := 0, pos, count, 0;
    assert calls[0..] == calls;
    assert Continues(file, pos, count, calls, memory, calls, 0, count, memory) by { Started(file, pos, count, calls, memory); }
    while true
      invariant prc <= |calls| && len + writable == count && rpos == pos + len
      invariant Continues(file, pos, count, calls, memory, calls[prc..], len, writable, buf[..])
      decreases |calls| - prc
    {
      OneCall(file, pos, count, calls, memory, calls[prc..], len, writable, buf[..]);
      assert calls[prc..][1..] == calls[prc + 1..];
      var ec := calls[prc];
      prc := prc + 1;
      if ec.Failed? { return ReadError; }
      if Ends(ec) { return ReadResult(buf[..len], true); }
      Transfer(buf, file, rpos, ec.n);
      rpos, writable, len := rpos + ec.n, writable - ec.n, len + ec.n;
      if writable == 0 { return ReadResult(buf[..len], false); }
    }
  }

  lemma Started(file: seq<byte>, pos: nat, count: nat, calls: seq<Pread>, memory: seq<byte>)
    requires 0 < count == |memory| && Answers(calls, file, pos, count)
    ensures Continues(file, pos, count, calls, memory, calls, 0, count, memory)
  {}

  // ---------- when the job is right ----------

  /** The first call of a job that does not fail, and what is left to do after it. */
  lemma FirstCall(calls: seq<Pread>, file: seq<byte>, rpos: nat, writable: nat, buf: seq<byte>)
    requires Answers(calls, file, rpos, writable) && !Breaks(calls, writable) && 0 < writable <= |buf|
    ensures calls != [] && !calls[0].Failed?
    ensures var (r, last, a, full) := (Left(calls, file, rpos, writable, buf), LastCount(calls, writable),
                                       Available(file, rpos, writable), Full(calls, file, rpos, writable));
            if Ends(calls[0]) then a == 0 && r == buf && last == 0 && full
            else
              var (n, more) := (calls[0].n, calls[1..]);
              && 0 < n <= a && rpos + a <= |file| && (full <==> n == a)
              && var written := file[rpos..rpos + n] + buf[n..];
              if n == writable then r == written && last == n == a
              else
                && Answers(more, file, rpos + n, writable - n) && !Breaks(more, writable - n) && Available(file, rpos + n, writable - n) == a - n
                && r == Left(more, file, rpos + n, writable - n, written)
                && var later := LastCount(more, writable - n); last == if later == 0 then n else later
  {
    if !Ends(calls[0]) { hide Left; LeftStep(calls, file, rpos, writable, buf); }
  }

  lemma LeftStep(calls: seq<Pread>, file: seq<byte>, rpos: nat, writable: nat, buf: seq<byte>)
    requires Answers(calls, file, rpos, writable) && 0 < writable <= |buf| && !Ends(calls[0])
    ensures var n := calls[0].n;
            && n <= writable && rpos + n <= |file|
            && var written := file[rpos..rpos + n] + buf[n..];
            && (n == writable ==> Left(calls, file, rpos, writable, buf) == written)
            && (n < writable ==>
                  && Answers(calls[1..], file, rpos + n, writable - n)
                  && Left(calls, file, rpos, writable, buf) == Left(calls[1..], file, rpos + n, writable - n, written))
  {}

  /** Behind what is written at its start a buffer stays, and behind all that is read it does after all calls. */
  lemma TailAlone(r: seq<byte>, front: seq<byte>, buf: seq<byte>, a: nat)
    requires |front| <= a <= |buf| == |r| && r[a - |front|..] == (front + buf[|front|..])[a - |front|..]
    ensures r[a..] == buf[a..]
    ensures 0 < |front| < a ==> r[a - 1] == buf[a - 1]
  {
    var (n, w) := (|front|, front + buf[|front|..]);
    assert r[a..] == r[a - n..][n..] && buf[a..] == w[a - n..][n..];
    if 0 < n < a { assert r[a - n..][n - 1] == r[a - 1] && w[a - n..][n - 1] == w[a - 1] == buf[a - 1]; }
  }

  /** Beyond as many bytes as there are, the buffer is left alone, and at its start are the last bytes read. */
  lemma {:induction false} LeftIs(calls: seq<Pread>, file: seq<byte>, rpos: nat, writable: nat, buf: seq<byte>)
    requires Answers(calls, file, rpos, writable) && !Breaks(calls, writable) && 0 < writable <= |buf|
    ensures var (r, n, a) := (Left(calls, file, rpos, writable, buf), LastCount(calls, writable), Available(file, rpos, writable));
            && n <= a && (n == 0 <==> a == 0) && (Full(calls, file, rpos, writable) <==> n == a)
            && r[a..] == buf[a..] && (a > 0 ==> r[..n] == file[rpos + a - n..rpos + a])
    decreases |calls|
  {
    hide Answers, Breaks, Left, LastCount, Available, Full;
    FirstCall(calls, file, rpos, writable, buf);
    if !Ends(calls[0]) {
      var (n, a) := (calls[0].n, Available(file, rpos, writable));
      if n < writable {
        var written := file[rpos..rpos + n] + buf[n..];
        LeftIs(calls[1..], file, rpos + n, writable - n, written);
        TailAlone(Left(calls, file, rpos, writable, buf), file[rpos..rpos + n], buf, a);
      }
    }
  }

  /**
   A job delivers what the file has, whatever its memory held before, if and only if no call
   fails and the first answer that has bytes has all there are.
   */
  lemma RightIffFull(file: seq<byte>, pos: nat, count: nat, calls: seq<Pread>)
    requires 0 < count && Answers(calls, file, pos, count)
    ensures (forall memory: seq<byte> :: |memory| == count ==> JobResult(file, pos, count, calls, memory) == ReadAt(file, pos, count))
            <==> !Breaks(calls, count) && Full(calls, file, pos, count)
  {
    hide Answers, Breaks, LastCount, Full, Left;
    var memory := seq(count, i requires 0 <= i < count => 0 as byte);
    if !Breaks(calls, count) {
      if Full(calls, file, pos, count) {
        forall memory: seq<byte> | |memory| == count
          ensures JobResult(file, pos, count, calls, memory) == ReadAt(file, pos, count)
        {
          LeftIs(calls, file, pos, count, memory);
        }
      } else {
        var a := Available(file, pos, count);
        LeftIs(calls, file, pos, count, memory);
        var other := memory[a - 1 := if file[pos + a - 1] == 0 then 1 else 0];
        LastByteLeft(calls, file, pos, count, other);
        assert JobResult(file, pos, count, calls, other).buf[a - 1] != ReadAt(file, pos, count).buf[a - 1];
      }
    } else {
      assert JobResult(file, pos, count, calls, memory) == ReadError;
    }
  }

  /** After a short answer no call writes the last of the bytes that are delivered. */
  lemma LastByteLeft(calls: seq<Pread>, file: seq<byte>, pos: nat, count: nat, memory: seq<byte>)
    requires 0 < count == |memory| && Answers(calls, file, pos, count) && !Breaks(calls, count) && !Full(calls, file, pos, count)
    ensures var a := Available(file, pos, count); 0 < a && Left(calls, file, pos, count, memory)[a - 1] == memory[a - 1]
  {
    hide Answers, Breaks, Left, LastCount, Available, Full;
    FirstCall(calls, file, pos, count, memory);
    var (n, a) := (calls[0].n, Available(file, pos, count));
    LeftIs(calls[1..], file, pos + n, count - n, file[pos..pos + n] + memory[n..]);
    TailAlone(Left(calls, file, pos, count, memory), file[pos..pos + n], memory, a);
  }

  /**
   After a short answer what stands at the start are the last bytes that were read, so where
   the file differs there the job is wrong whatever its memory held before.
   */
  lemma WrongAnyhow(file: seq<byte>, pos: nat, count: nat, calls: seq<Pread>, memory: seq<byte>)
    requires 0 < count == |memory| && Answers(calls, file, pos, count) && !Breaks(calls, count) && !Full(calls, file, pos, count)
    ensures var (n, a) := (LastCount(calls, count), Available(file, pos, count));
            && 0 < n < a
            && JobResult(file, pos, count, calls, memory).buf[..n] == file[pos + a - n..pos + a]
            && (file[pos + a - n..pos + a] != file[pos..pos + n] ==> JobResult(file, pos, count, calls, memory) != ReadAt(file, pos, count))
  {
    hide Answers, Breaks, LastCount, Full, Left;
    LeftIs(calls, file, pos, count, memory);
    var (n, a, r) := (LastCount(calls, count), Available(file, pos, count), JobResult(file, pos, count, calls, memory));
    assert r.buf[..n] == Left(calls, file, pos, count, memory)[..n];
    assert ReadAt(file, pos, count).buf[..n] == file[pos..pos + n];
  }

  /** A short answer, and wrong bytes. */
  lemma ShortAnswer(memory: seq<byte>)
    requires |memory| == 2
    ensures Answers([Count(1), Count(1)], [1, 2], 0, 2) && JobResult([1, 2], 0, 2, [Count(1), Count(1)], memory) != ReadAt([1, 2], 0, 2)
  {
    var calls := [Count(1), Count(1)];
    assert calls[1..] == [Count(1)];
    assert Answers(calls[1..], [1, 2], 1, 1) && !Breaks(calls[1..], 1) && LastCount(calls[1..], 1) == 1;
    WrongAnyhow([1, 2], 0, 2, calls, memory);
    assert LastCount(calls, 2) == 1;
    var file: seq<byte> := [1, 2];
    assert file[1..2][0] != file[0..1][0];
  }
}
