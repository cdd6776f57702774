/** The buffer in front of the parser: it gathers chunks until there are enough bytes. */
module NeedMinBuffer {
  import opened Bytes

  /** What the file reader delivers: bytes, an error, or nothing yet. */
  datatype Input = Chunk(bytes: seq<byte>) | Fault | NotYet

  /** What a poll gives: nothing yet, the end, an error, or a buffer. */
  datatype Arrival = Pending | Ended | Broken | Buffer(bytes: seq<byte>)

  /** All bytes of an input, however they are cut. */
  function Stream(input: seq<Input>): seq<byte> {
    if input == [] then []
    else (if input[0].Chunk? then input[0].bytes else []) + Stream(input[1..])
  }

  predicate Sound(input: seq<Input>) {
    forall i :: 0 <= i < |input| ==> !input[i].Fault?
  }

  /** The bytes an item brings. */
  function BytesOf(i: Input): seq<byte> {
    if i.Chunk? then i.bytes else []
  }

  lemma {:induction false} StreamSplit(a: seq<Input>, b: seq<Input>)
    ensures Stream(a + b) == Stream(a) + Stream(b)
  {
    if a == [] {
      assert a + b == b;
    } else {
      assert (a + b)[1..] == a[1..] + b;
      StreamSplit(a[1..], b);
    }
  }

  /**
   The first `n` items of an input have been taken, and `have` is what was kept before and what
   they brought, in order; before the last of them fewer than `need` bytes were there.
   */
  ghost predicate Gathered(input: seq<Input>, n: nat, kept: seq<byte>, have: seq<byte>, need: nat) {
    && n <= |input| && have == kept + Stream(input[..n])
    && forall j :: 0 < j < n ==> |kept| + |Stream(input[..j])| < need
  }

  lemma NoneTaken(input: seq<Input>, kept: seq<byte>, need: nat)
    ensures input[0..] == input && Gathered(input, 0, kept, kept, need)
  {}

  /** One item more of an input is taken. */
  lemma OneTaken(input: seq<Input>, n: nat, kept: seq<byte>, have: seq<byte>, need: nat)
    requires n < |input| && Gathered(input, n, kept, have, need) && (|have| < need || n == 0)
    ensures input[n..][0] == input[n] && input[n..][1..] == input[n + 1..]
    ensures Gathered(input, n + 1, kept, have + BytesOf(input[n]), need)
  {
    assert input[..n + 1] == input[..n] + [input[n]];
    StreamSplit(input[..n], [input[n]]);
    assert [input[n]][1..] == [];
  }

  lemma NoBytes(i: Input, have: seq<byte>)
    ensures i.Chunk? ==> BytesOf(i) == i.bytes
    ensures !i.Chunk? ==> have + BytesOf(i) == have
  {}

  class NeedMinBuffer {
    var inp: seq<Input>
    var needMin: nat
    var left: Option<seq<byte>>

    function Left(): seq<byte>
      reads this
    {
      if left.Some? then left.value else []
    }

    constructor (input: seq<Input>, need: nat)
      ensures inp == input && needMin == need && left == None
    {
      inp, needMin, left := input, need, None;
    }

    method PutBack(buf: seq<byte>)
      requires left.None?
      modifies this`left
      ensures left == Some(buf)
    {
      left := Some(buf);
    }

    method SetNeedMin(n: nat)
      modifies this`needMin
      ensures needMin == n
    {
      needMin := n;
    }

    /**
     A buffer of at least `needMin` bytes: all that was kept and as many chunks more as it
     takes, and no more.  What has arrived stays in order and is kept until then.
     */
    method PollNext() returns (r: Arrival, ghost n: nat)
      modifies this`inp, this`left
      ensures Gathered(old(inp), n, old(Left()), if r.Buffer? then r.bytes else Left(), needMin) && inp == old(inp)[n..]
      ensures r.Buffer? ==> left.None? && |r.bytes| >= needMin
      ensures !r.Buffer? ==> |Left()| < needMin || Left() == old(Left())
      ensures r.Ended? ==> inp == [] && (n == 0 || old(inp)[n - 1].Chunk?)
      ensures !r.Ended? ==> 0 < n && (r.Broken? <==> old(inp)[n - 1].Fault?) && (r.Pending? <==> old(inp)[n - 1].NotYet?)
    {
      hide Gathered, Stream, Sound, BytesOf;
      ghost var was, kept := inp, Left();
      ghost var have := kept;
      n := 0;
      NoneTaken(was, kept, needMin);
      while true
        invariant n <= |was| && inp == was[n..] && have == Left() && Gathered(was, n, kept, have, needMin)
        invariant if n == 0 then have == kept else was[n - 1].Chunk? && |have| < needMin
        decreases |inp|
      {
        if inp == [] { r := Ended; return; }
        OneTaken(was, n, kept, have, needMin);
        have := have + BytesOf(was[n]);
        n := n + 1;
        var next := inp[0];
        inp := inp[1..];
        NoBytes(next, Left());
        match next
        case NotYet => r := Pending; return;
        case Fault => r := Broken; return;
        case Chunk(bytes) =>
          var fcr := Left() + bytes;
          left := None;
          if |fcr| >= needMin { r := Buffer(fcr); return; }
          left := Some(fcr);
      }
    }
  }
}
