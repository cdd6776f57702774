/** Searching the index of a data file, a list of pairs of time and file position. */
module IndexSearch {
  import opened Bytes
  import opened BigEndian
  import opened TimeSearch

  datatype Result<+T> = Ok(value: T) | Err

  const N: nat := 16

  function TimeAt(buf: seq<byte>, i: nat): nat
    requires N * (i + 1) <= |buf|
  {
    FromBE(buf[N * i..N * i + 8])
  }

  function PlaceAt(buf: seq<byte>, i: nat): nat
    requires N * (i + 1) <= |buf|
  {
    FromBE(buf[N * i + 8..N * i + 16])
  }

  function Times(buf: seq<byte>): (ts: seq<nat>)
    ensures |ts| == |buf| / N
  {
    seq(|buf| / N, i requires 0 <= i < |buf| / N => TimeAt(buf, i))
  }

  function Entry(buf: seq<byte>, i: Option<nat>): Option<(nat, nat)>
    requires i.Some? ==> i.value < |buf| / N
  {
    if i.None? then None else Some((TimeAt(buf, i.value), PlaceAt(buf, i.value)))
  }

  /** What find_ge answers once the crossing is known. */
  function Pick(ts: seq<nat>, end: nat, expand: bool, k: nat): (r: Option<nat>)
    requires k <= |ts|
    ensures r.Some? ==> r.value < |ts|
  {
    if k < |ts| && (ts[k] < end || expand) then Some(k) else None
  }

  /**
   The first entry at or after `beg`.  The list need not be ordered for the search to find a
   crossing, and the errors for unordered data are never reached; in an ordered list the
   entry is the one a scan finds.
   */
  method FindGe(beg: nat, end: nat, expand: bool, buf: seq<byte>) returns (r: Result<Option<(nat, nat)>>, ghost at: nat)
    ensures |buf| % N != 0 <==> r.Err?
    ensures r.Ok? ==> Crossing(Times(buf), beg, at) && r.value == Entry(buf, Pick(Times(buf), end, expand, at))
    ensures r.Ok? && Sorted(Times(buf)) ==> r.value == Entry(buf, ScanGe(Times(buf), beg, end, expand))
  {
    at := 0;
    if |buf| % N != 0 { return Err, 0; }
    ghost var ts := Times(buf);
    if |buf| == 0 {
      Settled(buf, beg, end, expand, 0);
      return Ok(None), 0;
    }
    var n1 := |buf| / N;
    var j, k := 0, n1 - 1;
    var x := TimeAt(buf, j);
    var y := TimeAt(buf, k);
    if y < beg {
      Settled(buf, beg, end, expand, n1);
      return Ok(None), n1;
    }
    if x >= beg {
      Settled(buf, beg, end, expand, 0);
      if x < end || expand { return Ok(Some((x, PlaceAt(buf, j)))), 0; } else { return Ok(None), 0; }
    }
    if x >= y { r := Err; return; }
    while true
      invariant 0 <= j < k < n1 && x == ts[j] < beg <= y == ts[k]
      decreases k - j
    {
      if x >= y { r := Err; return; }
      if k - j < 2 {
        Settled(buf, beg, end, expand, k);
        if y < end || expand { return Ok(Some((y, PlaceAt(buf, k)))), k; } else { return Ok(None), k; }
      }
      var m := (k + j) / 2;
      var e := TimeAt(buf, m);
      if e < beg { j, x := m, e; } else { k, y := m, e; }
    }
  }

  lemma Settled(buf: seq<byte>, beg: nat, end: nat, expand: bool, k: nat)
    ensures Sorted(Times(buf)) && Crossing(Times(buf), beg, k) ==>
      && ScanGe(Times(buf), beg, end, expand) == Pick(Times(buf), end, expand, k)
      && ScanBelow(Times(buf), beg) == (if k == 0 then None else Some(k - 1))
  {
    hide Times;
    if Sorted(Times(buf)) && Crossing(Times(buf), beg, k) {
      CrossingIsFirstGe(Times(buf), beg, k);
      CrossingIsScanBelow(Times(buf), beg, k);
    }
  }

  /** The last entry before `beg`. */
  method FindLargestSmallerThan(beg: nat, buf: seq<byte>) returns (r: Result<Option<(nat, nat)>>, ghost at: nat)
    ensures |buf| % N != 0 <==> r.Err?
    ensures r.Ok? ==> Crossing(Times(buf), beg, at) && r.value == Entry(buf, if at == 0 then None else Some(at - 1))
    ensures r.Ok? && Sorted(Times(buf)) ==> r.value == Entry(buf, ScanBelow(Times(buf), beg))
  {
    at := 0;
    if |buf| % N != 0 { return Err, 0; }
    ghost var ts := Times(buf);
    if |buf| == 0 {
      Settled(buf, beg, 0, false, 0);
      return Ok(None), 0;
    }
    var n1 := |buf| / N;
    var j, k := 0, n1 - 1;
    var x := TimeAt(buf, j);
    var y := TimeAt(buf, k);
    if x >= beg {
      Settled(buf, beg, 0, false, 0);
      return Ok(None), 0;
    }
    if y < beg {
      Settled(buf, beg, 0, false, n1);
      return Ok(Some((y, PlaceAt(buf, k)))), n1;
    }
    if x >= y { r := Err; return; }
    while true
      invariant 0 <= j < k < n1 && x == ts[j] < beg <= y == ts[k]
      decreases k - j
    {
      if x >= y { r := Err; return; }
      if k - j < 2 {
        Settled(buf, beg, 0, false, k);
        return Ok(Some((x, PlaceAt(buf, j)))), k;
      }
      var m := (k + j) / 2;
      var e := TimeAt(buf, m);
      if e < beg { j, x := m, e; } else { k, y := m, e; }
    }
  }
}
