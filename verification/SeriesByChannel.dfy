/** Registration of series for batches of channels. */
module SeriesByChannel {
  import opened Bytes
  import opened SeriesTable
  import opened SeriesDecide

  /** A query, and where its reply goes. */
  datatype Job = Job(query: Query, tx: nat)

  datatype Registered = Created(series: nat) | Updated(series: nat) | Current(series: nat)

  datatype Found = Found(job: Job, status: Matching)

  datatype Reply = Reply(job: Job, series: Registered)

  // ---------- select ----------

  lemma {:induction false} GroupTail(answer: seq<Answered>, n: nat, rid: nat)
    requires n <= |answer| && forall i :: n <= i < |answer| ==> answer[i].rid != rid
    ensures Group(answer, rid) == Group(answer[..n], rid)
    decreases |answer|
  {
    if n == |answer| {
      assert answer[..n] == answer;
    } else {
      var m := |answer| - 1;
      assert answer[..m][..n] == answer[..n];
      GroupTail(answer[..m], n, rid);
    }
  }

  lemma OneFurther(answer: seq<Answered>, n: nat, rid: nat)
    requires n < |answer|
    ensures Group(answer[..n + 1], rid) == Group(answer[..n], rid) + if answer[n].rid == rid then [answer[n].row] else []
  {
    assert answer[..n + 1] == answer[..n] + [answer[n]];
    GroupMore(answer[..n], answer[n], rid);
  }

  /** What select gives for a job: the decision on its rows. */
  ghost predicate IsDecided(f: Found, job: Job, group: seq<Row>, rows: seq<Row>) {
    f.job == job && IsGroup(group, rows, job.query) && Decide(group, job.query) == Some(f.status)
  }

  function QueriesOf(jobs: seq<Job>): (r: seq<Query>)
    ensures |r| == |jobs|
  {
    seq(|jobs|, i requires 0 <= i < |jobs| => jobs[i].query)
  }

  /**
   The answer is gone through once, together with the jobs: each gets exactly its own rows to
   decide on.
   */
  method Select(table: Table, jobs: seq<Job>, ghost now: nat) returns (result: Option<seq<Found>>, ghost groups: seq<seq<Row>>)
    requires Consistent(table.rows, now)
    ensures result.Some? && |result.value| == |groups| == |jobs|
    ensures forall i :: 0 <= i < |jobs| ==> IsDecided(result.value[i], jobs[i], groups[i], table.rows)
  {
    hide Group, IsGroup, Decide, InOrder;
    assert forall i, j :: 0 <= i < j < |table.rows| ==> table.rows[i] != table.rows[j];
    var queries := QueriesOf(jobs);
    var answer := table.Select(queries);
    var next := 0;
    var found := [];
    groups := [];
    for rid := 0 to |jobs|
      invariant 0 <= next <= |answer| && |found| == |groups| == rid
      invariant forall i :: 0 <= i < next ==> answer[i].rid < rid
      invariant forall i :: next <= i < |answer| ==> rid <= answer[i].rid
      invariant forall i :: 0 <= i < rid ==> IsDecided(found[i], jobs[i], groups[i], table.rows)
    {
      var acc := [];
      NoGroup(answer[..next], rid);
      while next < |answer| && answer[next].rid == rid
        invariant 0 <= next <= |answer| && acc == Group(answer[..next], rid)
        invariant forall i :: 0 <= i < next ==> answer[i].rid <= rid
        invariant forall i :: next <= i < |answer| ==> rid <= answer[i].rid
      {
        OneFurther(answer, next, rid);
        acc := acc + [answer[next].row];
        next := next + 1;
      }
      if next < |answer| { assert forall i :: next <= i < |answer| ==> answer[next].rid <= answer[i].rid; }
      GroupTail(answer, next, rid);
      assert IsGroup(acc, table.rows, jobs[rid].query);
      GroupInOrder(acc, table.rows, jobs[rid].query, now);
      DecideIsJustified(acc, jobs[rid].query, now);
      var decision := Decide(acc, jobs[rid].query);
      if decision.None? { result := None; return; }
      found := found + [Found(jobs[rid], decision.value)];
      groups := groups + [acc];
    }
    result := Some(found);
  }

  lemma GroupInOrder(group: seq<Row>, rows: seq<Row>, q: Query, now: nat)
    requires IsGroup(group, rows, q) && Consistent(rows, now)
    ensures forall r :: r in group ==> InOrder(r, now)
  {
    hide InOrder, Joins;
  }

  // ---------- insert ----------

  predicate DistinctQueries(batch: seq<Query>) {
    forall i, j :: 0 <= i < j < |batch| ==> batch[i] != batch[j]
  }

  function KeysOf(rows: seq<Row>): (r: seq<Query>)
    ensures |r| == |rows|
  {
    seq(|rows|, i requires 0 <= i < |rows| => KeyOf(rows[i]))
  }

  function QuerySet(batch: seq<Query>): set<Query> {
    set q | q in batch
  }

  /** Rows that have been added for a batch: new keys, each asked for, used now. */
  ghost predicate Added(old_: seq<Row>, added: seq<Row>, batch: seq<Query>, now: nat) {
    && (forall i :: 0 <= i < |added| ==> KeyOf(added[i]) in batch && added[i] == NewRow(KeyOf(added[i]), added[i].series, now))
    && (forall i :: 0 <= i < |added| ==> !HasKey(old_, KeyOf(added[i])))
  }

  lemma {:induction false} QuerySetSize(batch: seq<Query>)
    ensures |QuerySet(batch)| <= |batch|
    ensures |QuerySet(batch)| == |batch| <==> DistinctQueries(batch)
  {
    hide DistinctQueries, QuerySet;
    if batch == [] {
      NoQueries();
    } else {
      var (front, last) := (batch[..|batch| - 1], batch[|batch| - 1]);
      assert batch == front + [last];
      QuerySetSize(front);
      OneQuery(front, last);
    }
  }

  lemma NoQueries()
    ensures QuerySet([]) == {} && DistinctQueries([])
  {}

  lemma OneQuery(front: seq<Query>, last: Query)
    ensures |QuerySet(front + [last])| == |QuerySet(front)| + (if last in front then 0 else 1)
    ensures DistinctQueries(front + [last]) <==> DistinctQueries(front) && last !in front
  {
    var batch := front + [last];
    assert QuerySet(batch) == QuerySet(front) + {last};
    assert forall i :: 0 <= i < |front| ==> batch[i] == front[i] && front[i] in front;
    assert batch[|front|] == last;
    if last in front {
      assert QuerySet(batch) == QuerySet(front);
    }
  }

  lemma SubsetOfSameSize(a: set<Query>, b: set<Query>)
    requires a <= b && |a| == |b|
    ensures a == b
  {
    assert b == a + (b - a);
    assert |b| == |a| + |b - a|;
  }

  lemma SubsetSize(a: set<Query>, b: set<Query>)
    requires a <= b
    ensures |a| <= |b|
  {
    assert b == a + (b - a);
  }

  /** As many rows as queries can only have been added if the queries differ, none was there before, and all are there now. */
  lemma AllAdded(old_: seq<Row>, added: seq<Row>, batch: seq<Query>, now: nat)
    requires Added(old_, added, batch, now) && Consistent(old_ + added, now)
    ensures |added| <= |batch|
    ensures |added| == |batch| ==>
      && DistinctQueries(batch)
      && (forall q :: q in batch ==> !HasKey(old_, q) && HasKey(added, q))
  {
    hide InOrder;
    forall i, j | 0 <= i < j < |added|
      ensures KeyOf(added[i]) != KeyOf(added[j])
    {
      var (m, all) := (|old_|, old_ + added);
      assert all[m + i] == added[i] && all[m + j] == added[j];
    }
    var keys := KeysOf(added);
    QuerySetSize(keys);
    QuerySetSize(batch);
    assert QuerySet(keys) <= QuerySet(batch);
    SubsetSize(QuerySet(keys), QuerySet(batch));
    if |added| == |batch| {
      SubsetOfSameSize(QuerySet(keys), QuerySet(batch));
      forall q | q in batch
        ensures !HasKey(old_, q) && HasKey(added, q)
      {
        assert q in QuerySet(batch);
        assert q in keys;
        var i :| 0 <= i < |added| && keys[i] == q;
      }
    }
  }

  /** An insert adds rows for the batch to those added before. */
  lemma {:induction false} InsertedIsAdded(old_: seq<Row>, added: seq<Row>, batch: seq<Query>, part: seq<Query>, ids: seq<nat>, now: nat)
    requires Added(old_, added, batch, now) && Consistent(old_ + added, now)
    requires |ids| == |part| && forall q :: q in part ==> q in batch
    ensures var r := Inserted(old_ + added, part, ids, now);
            && |old_ + added| <= |r| && r[..|old_ + added|] == old_ + added
            && Added(old_, r[|old_|..], batch, now) && r == old_ + r[|old_|..] && Consistent(r, now)
    decreases |part|
  {
    hide InOrder, HasKey, Conflicts;
    if part == [] {
      assert (old_ + added)[|old_|..] == added;
    } else {
      var n := |part| - 1;
      assert part[n] in part && forall q :: q in part[..n] ==> q in part;
      InsertedIsAdded(old_, added, batch, part[..n], ids[..n], now);
      var before := Inserted(old_ + added, part[..n], ids[..n], now);
      var row := NewRow(part[n], ids[n], now);
      if !Conflicts(before, row) { OneRow(old_, before, batch, row, now); }
    }
  }

  lemma OneRow(old_: seq<Row>, before: seq<Row>, batch: seq<Query>, row: Row, now: nat)
    requires |old_| <= |before| && before == old_ + before[|old_|..] && Added(old_, before[|old_|..], batch, now) && Consistent(before, now)
    requires !Conflicts(before, row) && KeyOf(row) in batch && row == NewRow(KeyOf(row), row.series, now)
    ensures var r := before + [row];
            Added(old_, r[|old_|..], batch, now) && r == old_ + r[|old_|..] && Consistent(r, now)
  {
    var r := before + [row];
    assert r[|old_|..] == before[|old_|..] + [row];
    assert !HasKey(old_, KeyOf(row)) by {
      forall i | 0 <= i < |old_|
        ensures KeyOf(old_[i]) != KeyOf(row)
      {
        assert before[i] == old_[i];
      }
    }
    assert InOrder(row, now);
  }

  const OUTER_LIMIT: nat := 200
  const INNER_LIMIT: nat := 800
  const MIN_SERIES: nat := 1_000_000_000_000_000_000
  const MAX_SERIES: nat := 0x7FFF_FFFF_FFFF_FFFF

  predicate InRange(series: nat) {
    MIN_SERIES <= series <= MAX_SERIES
  }

  /** The first candidate in range, from trial `i2` on and before the limit. */
  function FirstInRange(candidate: (nat, nat, nat) -> nat, i: nat, i1: nat, i2: nat): Option<nat>
    decreases INNER_LIMIT - i2
  {
    if i2 >= INNER_LIMIT then None
    else if InRange(candidate(i, i1, i2)) then Some(candidate(i, i1, i2))
    else FirstInRange(candidate, i, i1, i2 + 1)
  }

  /** No candidate of these trials is in range: from 10^18 up to the largest signed number. */
  predicate NoneBetween(candidate: (nat, nat, nat) -> nat, i: nat, i1: nat, from: nat, to: nat) {
    forall k: nat :: from <= k < to ==> !(1_000_000_000_000_000_000 <= candidate(i, i1, k) < 0x8000_0000_0000_0000)
  }

  /** Some row has no candidate in range in 799 trials. */
  predicate SomeWithout(candidate: (nat, nat, nat) -> nat, n: nat, i1: nat) {
    exists i: nat :: i < n && NoneBetween(candidate, i, i1, 1, 800)
  }

  /** The first candidate from trial `i2` on and before the 800th that is in range. */
  lemma {:induction false} FirstInRangeIs(candidate: (nat, nat, nat) -> nat, i: nat, i1: nat, i2: nat)
    ensures match FirstInRange(candidate, i, i1, i2)
            case Some(s) =>
              && 1_000_000_000_000_000_000 <= s < 0x8000_0000_0000_0000
              && exists k :: i2 <= k < 800 && candidate(i, i1, k) == s && NoneBetween(candidate, i, i1, i2, k)
            case None => NoneBetween(candidate, i, i1, i2, 800)
    decreases 800 - i2
  {
    if i2 < INNER_LIMIT && !InRange(candidate(i, i1, i2)) { FirstInRangeIs(candidate, i, i1, i2 + 1); }
  }

  /** An id for every row; `candidate` stands for the salted hashes, by row and numbers of trials. */
  method SeriesIds(n: nat, i1: nat, candidate: (nat, nat, nat) -> nat) returns (ids: Option<seq<nat>>)
    ensures ids.Some? <==> forall i :: 0 <= i < n ==> FirstInRange(candidate, i, i1, 1).Some?
    ensures ids.Some? ==> |ids.value| == n && forall i :: 0 <= i < n ==> FirstInRange(candidate, i, i1, 1) == Some(ids.value[i])
    ensures ids.Some? ==> forall i :: 0 <= i < n ==> 1_000_000_000_000_000_000 <= ids.value[i] < 0x8000_0000_0000_0000
    ensures ids.None? ==> SomeWithout(candidate, n, i1)
  {
    hide InRange;
    var r := [];
    for i := 0 to n
      invariant |r| == i && forall k :: 0 <= k < i ==> FirstInRange(candidate, k, i1, 1) == Some(r[k])
      invariant forall k :: 0 <= k < i ==> 1_000_000_000_000_000_000 <= r[k] < 0x8000_0000_0000_0000
    {
      var i2: nat, series := 0, 0;
      while true
        invariant i2 < INNER_LIMIT && FirstInRange(candidate, i, i1, 1) == FirstInRange(candidate, i, i1, i2 + 1)
        decreases INNER_LIMIT - i2
      {
        i2 := i2 + 1;
        if i2 >= INNER_LIMIT {
          FirstInRangeIs(candidate, i, i1, 1);
          return None;
        }
        series := candidate(i, i1, i2);
        if InRange(series) { break; }
      }
      FirstInRangeIs(candidate, i, i1, 1);
      r := r + [series];
    }
    return Some(r);
  }

  /** New ids: different from each other and from those in the table. */
  predicate NewIds(rows: seq<Row>, ids: seq<nat>) {
    && (forall i, j :: 0 <= i < j < |ids| ==> ids[i] != ids[j])
    && (forall i, k :: 0 <= i < |ids| && 0 <= k < |rows| ==> rows[k].series != ids[i])
  }

  predicate NoneThere(rows: seq<Row>, batch: seq<Query>) {
    forall i :: 0 <= i < |batch| ==> !HasKey(rows, batch[i])
  }

  /** Different queries that are not in the table, with new ids, are all inserted at once. */
  lemma {:induction false} InsertsAll(rows: seq<Row>, batch: seq<Query>, ids: seq<nat>, now: nat)
    requires |ids| == |batch| && DistinctQueries(batch) && NoneThere(rows, batch) && NewIds(rows, ids)
    ensures Inserted(rows, batch, ids, now) == rows + NewRows(batch, ids, now)
  {
    hide HasKey, Conflicts;
    if batch == [] {
      assert rows + NewRows(batch, ids, now) == rows;
    } else {
      var n := |batch| - 1;
      InsertsAll(rows, batch[..n], ids[..n], now);
      OneInserted(rows, batch, ids, now);
      assert rows + NewRows(batch[..n], ids[..n], now) + [NewRow(batch[n], ids[n], now)] == rows + NewRows(batch, ids, now);
    }
  }

  function NewRows(batch: seq<Query>, ids: seq<nat>, now: nat): (r: seq<Row>)
    requires |ids| == |batch|
    ensures |r| == |batch|
  {
    seq(|batch|, i requires 0 <= i < |batch| => NewRow(batch[i], ids[i], now))
  }

  lemma OneInserted(rows: seq<Row>, batch: seq<Query>, ids: seq<nat>, now: nat)
    requires |ids| == |batch| && batch != [] && DistinctQueries(batch) && NoneThere(rows, batch) && NewIds(rows, ids)
    ensures var n := |batch| - 1; !Conflicts(rows + NewRows(batch[..n], ids[..n], now), NewRow(batch[n], ids[n], now))
  {
    var n := |batch| - 1;
    assert !HasKey(rows, batch[n]);
  }

  /** The trial that is made first, if every row gets an id at all. */
  predicate FirstTrialIsNew(rows: seq<Row>, n: nat, candidate: (nat, nat, nat) -> nat) {
    && (forall i :: 0 <= i < n ==> FirstInRange(candidate, i, 1, 1).Some?)
    && NewIds(rows, seq(n, i requires 0 <= i < n => FirstInRange(candidate, i, 1, 1).value))
  }

  /**
   Inserts until as many rows were inserted as there are queries.  Rows that are there from an
   earlier trial are not inserted, and so not counted, again.  It succeeds at once if the
   queries differ, none of them is in the table and the ids are new; it can succeed at all only
   if the queries differ and none is in the table.
   */
  method InsertMissing(table: Table, batch: seq<Query>, candidate: (nat, nat, nat) -> nat, now: nat) returns (ok: bool, ghost added: seq<Row>, ghost trials: nat)
    requires Consistent(table.rows, now)
    modifies table
    ensures !ok ==> trials == 199 || SomeWithout(candidate, |batch|, trials + 1)
    ensures table.rows == old(table.rows) + added && Consistent(table.rows, now) && Added(old(table.rows), added, batch, now)
    ensures ok ==>
      && |added| == |batch| && DistinctQueries(batch)
      && forall q :: q in batch ==> !HasKey(old(table.rows), q) && HasKey(added, q)
    ensures DistinctQueries(batch) && NoneThere(old(table.rows), batch) && FirstTrialIsNew(old(table.rows), |batch|, candidate) ==> ok
  {
    hide Consistent, Added, HasKey, DistinctQueries, Inserted, FirstTrialIsNew, NoneThere, NewIds, SomeWithout;
    ghost var was := table.rows;
    added, trials := [], 0;
    assert was + [] == was;
    NothingAdded(was, batch, now);
    var totalInsertCount, i1 := 0, 0;
    ghost var goes := DistinctQueries(batch) && NoneThere(was, batch) && FirstTrialIsNew(was, |batch|, candidate);
    while true
      invariant 0 <= i1 < OUTER_LIMIT && trials == i1 && totalInsertCount == |added|
      invariant table.rows == was + added && Consistent(table.rows, now) && Added(was, added, batch, now)
      invariant goes ==> i1 == 0 && table.rows == was
      decreases OUTER_LIMIT - i1
    {
      i1 := i1 + 1;
      if i1 >= OUTER_LIMIT { return false, added, trials; }
      var ids := SeriesIds(|batch|, i1, candidate);
      if goes { FirstTrial(was, batch, candidate, ids, now); }
      if ids.None? { return false, added, trials; }
      trials := i1;
      InsertedIsAdded(was, added, batch, batch, ids.value, now);
      var cc := table.Insert(batch, ids.value, now);
      added := table.rows[|was|..];
      totalInsertCount := totalInsertCount + cc;
      AllAdded(was, added, batch, now);
      if totalInsertCount == |batch| { return true, added, trials; }
    }
  }

  lemma FirstTrial(rows: seq<Row>, batch: seq<Query>, candidate: (nat, nat, nat) -> nat, ids: Option<seq<nat>>, now: nat)
    requires DistinctQueries(batch) && NoneThere(rows, batch) && FirstTrialIsNew(rows, |batch|, candidate)
    requires ids.Some? <==> forall i :: 0 <= i < |batch| ==> FirstInRange(candidate, i, 1, 1).Some?
    requires ids.Some? ==> |ids.value| == |batch| && forall i :: 0 <= i < |batch| ==> FirstInRange(candidate, i, 1, 1) == Some(ids.value[i])
    ensures ids.Some? && |Inserted(rows, batch, ids.value, now)| == |rows| + |batch|
  {
    hide FirstInRange, NewIds, Inserted, DistinctQueries, NoneThere;
    assert ids.value == seq(|batch|, i requires 0 <= i < |batch| => FirstInRange(candidate, i, 1, 1).value);
    InsertsAll(rows, batch, ids.value, now);
  }

  lemma NothingAdded(old_: seq<Row>, batch: seq<Query>, now: nat)
    ensures Added(old_, [], batch, now)
  {}
}
