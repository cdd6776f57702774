/** Searching a time-ordered list by halving, against the linear scans it stands for. */
module TimeSearch {
  import opened Bytes

  predicate Sorted(ts: seq<nat>) {
    forall i, j :: 0 <= i <= j < |ts| ==> ts[i] <= ts[j]
  }

  // ---------- linear scans ----------

  /** How many entries a scan from the front passes before one at or after `beg`. */
  function FirstGe(ts: seq<nat>, beg: nat): (k: nat)
    ensures k <= |ts|
  {
    if ts == [] || ts[0] >= beg then 0 else 1 + FirstGe(ts[1..], beg)
  }

  /** What is found at or after `beg`: within the range, or past it if the range is to be expanded. */
  function ScanGe(ts: seq<nat>, beg: nat, end: nat, expand: bool): (r: Option<nat>)
    ensures r.Some? ==> r.value < |ts|
  {
    var k := FirstGe(ts, beg);
    if k < |ts| && (ts[k] < end || expand) then Some(k) else None
  }

  /** A scan from the back for an entry before `beg`. */
  function ScanBelow(ts: seq<nat>, beg: nat): (r: Option<nat>)
    ensures r.Some? ==> r.value < |ts|
  {
    if ts == [] then None
    else if ts[|ts| - 1] < beg then Some(|ts| - 1)
    else ScanBelow(ts[..|ts| - 1], beg)
  }

  // ---------- what a search by halving finds ----------

  /** Place `k` is one where the list crosses `beg`. */
  predicate Crossing(ts: seq<nat>, beg: nat, k: nat) {
    k <= |ts| && (k > 0 ==> ts[k - 1] < beg) && (k < |ts| ==> beg <= ts[k])
  }

  /** In an ordered list the only crossing is where the scan from the front stops. */
  lemma {:induction false} CrossingIsFirstGe(ts: seq<nat>, beg: nat, k: nat)
    requires Sorted(ts) && Crossing(ts, beg, k)
    ensures FirstGe(ts, beg) == k
  {
    if ts == [] {
    } else if k == 0 {
    } else {
      assert ts[0] <= ts[k - 1];
      CrossingIsFirstGe(ts[1..], beg, k - 1);
    }
  }

  /** And the scan from the back stops just before it. */
  lemma {:induction false} CrossingIsScanBelow(ts: seq<nat>, beg: nat, k: nat)
    requires Sorted(ts) && Crossing(ts, beg, k)
    ensures ScanBelow(ts, beg) == if k == 0 then None else Some(k - 1)
  {
    if k < |ts| {
      assert ts[k] <= ts[|ts| - 1];
      CrossingIsScanBelow(ts[..|ts| - 1], beg, k);
    }
  }

  /** The two searches land on adjacent entries. */
  lemma Adjacent(ts: seq<nat>, beg: nat)
    requires Sorted(ts)
    ensures ScanBelow(ts, beg) == if FirstGe(ts, beg) == 0 then None else Some(FirstGe(ts, beg) - 1)
  {
    FirstGeCrosses(ts, beg);
    CrossingIsScanBelow(ts, beg, FirstGe(ts, beg));
  }

  lemma {:induction false} FirstGeCrosses(ts: seq<nat>, beg: nat)
    ensures Crossing(ts, beg, FirstGe(ts, beg))
  {
    if ts != [] && ts[0] < beg {
      FirstGeCrosses(ts[1..], beg);
    }
  }

  // ---------- how many steps halving takes ----------

  function CeilLog2(n: nat): nat {
    if n <= 1 then 0 else 1 + CeilLog2((n + 1) / 2)
  }

  function Pow2(k: nat): (p: nat)
    ensures p > 0
  {
    if k == 0 then 1 else 2 * Pow2(k - 1)
  }

  /** CeilLog2 is the least power of two that reaches `n`. */
  lemma {:induction false} CeilLog2Is(n: nat)
    requires 1 <= n
    ensures n <= Pow2(CeilLog2(n)) && (1 < n ==> Pow2(CeilLog2(n) - 1) < n)
  {
    if n > 1 {
      CeilLog2Is((n + 1) / 2);
    }
  }

  lemma {:induction false} CeilLog2Monotone(a: nat, b: nat)
    requires a <= b
    ensures CeilLog2(a) <= CeilLog2(b)
  {
    if a > 1 { CeilLog2Monotone((a + 1) / 2, (b + 1) / 2); }
  }

  /** Either half of a gap of `d` needs one step less. */
  lemma HalvingSaves(d: nat, half: nat)
    requires 2 <= d && (half == d / 2 || half == d - d / 2)
    ensures 1 <= half < d && CeilLog2(half) + 1 <= CeilLog2(d)
  {
    CeilLog2Monotone(half, (d + 1) / 2);
  }
}
