/** The pointer chain compiled without threads: the lock calls are gone, the ring remains. */
module SerialChain {
  import IoChain

  /** Positions stand for the pointers into the input and the output buffer. */
  class Chain {
    var next: nat
    const inPl: array<nat>
    const outPl: array<nat>

    ghost predicate Valid()
      reads this
    {
      inPl != outPl && inPl.Length == outPl.Length == IoChain.IOC_SIZE
    }

    /** Where the next iteration reads and writes. */
    ghost function In(): nat
      reads this, inPl
      requires Valid()
    {
      inPl[next % IoChain.IOC_SIZE]
    }

    ghost function Out(): nat
      reads this, outPl
      requires Valid()
    {
      outPl[next % IoChain.IOC_SIZE]
    }

    constructor (in0: nat, out0: nat)
      ensures Valid() && fresh(inPl) && fresh(outPl) && In() == in0 && Out() == out0
    {
      next := 0;
      inPl := new nat[IoChain.IOC_SIZE];
      outPl := new nat[IoChain.IOC_SIZE];
      new;
      inPl[0] := in0;
      outPl[0] := out0;
    }

    method GetIn() returns (iter: nat, p: nat)
      requires Valid()
      modifies this
      ensures Valid() && iter == old(next) && next == iter + 1 && p == old(In())
    {
      iter := next;
      next := next + 1;
      p := inPl[iter % IoChain.IOC_SIZE];
    }

    method SetNextIn(iter: nat, p: nat)
      requires Valid() && next == iter + 1
      modifies inPl
      ensures Valid() && In() == p
    {
      inPl[(iter + 1) % IoChain.IOC_SIZE] := p;
    }

    method GetOut(iter: nat) returns (p: nat)
      requires Valid()
      ensures p == outPl[iter % IoChain.IOC_SIZE]
    {
      p := outPl[iter % IoChain.IOC_SIZE];
    }

    method SetNextOut(iter: nat, p: nat)
      requires Valid() && next == iter + 1
      modifies outPl
      ensures Valid() && Out() == p
    {
      outPl[(iter + 1) % IoChain.IOC_SIZE] := p;
    }

    /** Both of an iteration's pointers at once: what a block whose extent is known beforehand does. */
    method Claim(inBytes: nat, outBytes: nat) returns (p: nat, q: nat)
      requires Valid()
      modifies this, inPl, outPl
      ensures Valid() && p == old(In()) && q == old(Out())
      ensures In() == p + inBytes && Out() == q + outBytes
    {
      var iter;
      iter, p := GetIn();
      SetNextIn(iter, p + inBytes);
      q := GetOut(iter);
      SetNextOut(iter, q + outBytes);
    }
  }
}
