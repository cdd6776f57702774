/** A batch of series queries as one transaction. */
module SeriesBatch {
  import opened Bytes
  import opened SeriesTable
  import opened SeriesDecide
  import opened SeriesByChannel

  // ---------- what a reply says ----------

  function JobsOf(replies: seq<Reply>): (r: seq<Job>)
    ensures |r| == |replies|
  {
    seq(|replies|, i requires 0 <= i < |replies| => replies[i].job)
  }

  function IdsOf(replies: seq<Reply>): (r: seq<nat>)
    ensures |r| == |replies|
  {
    seq(|replies|, i requires 0 <= i < |replies| => replies[i].series.series)
  }

  /** Decided on the rows of the table, in some order. */
  ghost predicate DecidedAs(q: Query, rows: seq<Row>, m: Matching) {
    exists group :: IsGroup(group, rows, q) && Decide(group, q) == Some(m)
  }

  /** Why a job got its reply: the table `was` before the batch, and `then_` with the rows inserted for it. */
  ghost predicate Earned(reply: Reply, was: seq<Row>, then_: seq<Row>) {
    var q := reply.job.query;
    match reply.series
    case Current(sid) => DecidedAs(q, was, Latest(sid))
    case Updated(sid) => DecidedAs(q, was, UsedBefore(sid))
    case Created(sid) => DecidedAs(q, was, DoesntExist) && (DecidedAs(q, then_, Latest(sid)) || DecidedAs(q, then_, UsedBefore(sid)))
  }

  /** A row that belongs to the query and has the type and the kind of shape it asks for. */
  ghost predicate Answers(q: Query, sid: nat, rows: seq<Row>) {
    exists r :: r in rows && r.series == sid && Joins(r, q) && Fits(r, q)
  }

  lemma JustifiedAnswers(q: Query, rows: seq<Row>, m: Matching, now: nat)
    requires Consistent(rows, now) && DecidedAs(q, rows, m) && !m.DoesntExist?
    ensures Answers(q, m.series, rows)
  {
    hide Fits, Joins, Decide, InOrder;
    var group :| IsGroup(group, rows, q) && Decide(group, q) == Some(m);
    GroupInOrder(group, rows, q, now);
    DecideIsJustified(group, q, now);
    match m
    case Latest(sid) =>
      var r: Row, t: nat :| r.series == sid && Fits(r, q) && IsLatest(r, t, group);
      assert r in rows && Joins(r, q);
    case UsedBefore(sid) =>
      var r: Row, t: nat :| r.series == sid && IsLatestFit(r, t, group, q);
      assert r in rows && Joins(r, q) && Fits(r, q);
  }

  /** What is in the table under its own key is found. */
  lemma PresentIsFound(q: Query, rows: seq<Row>, m: Matching, now: nat)
    requires Consistent(rows, now) && DecidedAs(q, rows, m) && HasKey(rows, q)
    ensures !m.DoesntExist?
  {
    hide Decide, InOrder, ShapeEquiv;
    var group :| IsGroup(group, rows, q) && Decide(group, q) == Some(m);
    var i :| 0 <= i < |rows| && KeyOf(rows[i]) == q;
    GroupInOrder(group, rows, q, now);
    DecideIsJustified(group, q, now);
    ShapeEquivIsEquivalence(q.shape, q.shape, q.shape);
    assert rows[i] in rows && Joins(rows[i], q) && Fits(rows[i], q);
    assert rows[i] in group;
  }

  // ---------- the table after a batch ----------

  /** Rows that were there before are used again, at a later time; the others stay. */
  lemma AppendKeeps(was: seq<Row>, added: seq<Row>, ids: seq<nat>, before: nat, now: nat)
    requires Consistent(was, before) && Consistent(was + added, now) && before < now
    requires forall s :: s in ids ==> exists r :: r in was && r.series == s
    ensures Consistent(Appended(was + added, ids, now), now)
  {
    var (rows, later) := (was + added, Appended(was + added, ids, now));
    forall i | 0 <= i < |later|
      ensures InOrder(later[i], now)
    {
      if rows[i].series in ids {
        var r :| r in was && r.series == rows[i].series;
        var k :| 0 <= k < |was| && was[k] == r;
        assert rows[k] == was[k];
        assert k == i;
        assert InOrder(was[i], before);
      }
    }
    assert forall i :: 0 <= i < |later| ==> later[i].series == rows[i].series && KeyOf(later[i]) == KeyOf(rows[i]);
  }

  lemma AppendNothing(rows: seq<Row>, now: nat)
    ensures Appended(rows, [], now) == rows
  {}

  lemma Later(rows: seq<Row>, before: nat, now: nat)
    requires Consistent(rows, before) && before <= now
    ensures Consistent(rows, now)
  {}

  lemma AnswersLater(q: Query, sid: nat, rows: seq<Row>, more: seq<Row>, ids: seq<nat>, now: nat)
    requires Answers(q, sid, rows)
    ensures Answers(q, sid, Appended(rows + more, ids, now))
  {
    var r :| r in rows && r.series == sid && Joins(r, q) && Fits(r, q);
    var k :| 0 <= k < |rows| && rows[k] == r;
    var later := Appended(rows + more, ids, now);
    assert (rows + more)[k] == r;
    assert later[k] in later && later[k] == Used(r, ids, now);
  }

  // ---------- the batch ----------

  /** The jobs sorted by what was found. */
  method Partition(found: seq<Found>, jobs: seq<Job>, ghost groups: seq<seq<Row>>, ghost rows: seq<Row>)
    returns (latest: seq<Reply>, usedBefore: seq<Reply>, missing: seq<Job>)
    requires |found| == |jobs| == |groups| && forall i :: 0 <= i < |jobs| ==> IsDecided(found[i], jobs[i], groups[i], rows)
    ensures multiset(JobsOf(latest)) + multiset(JobsOf(usedBefore)) + multiset(missing) == multiset(jobs)
    ensures |latest| + |usedBefore| + |missing| == |jobs|
    ensures forall i :: 0 <= i < |latest| ==> latest[i].series.Current? && Earned(latest[i], rows, rows)
    ensures forall i :: 0 <= i < |usedBefore| ==> usedBefore[i].series.Updated? && Earned(usedBefore[i], rows, rows)
    ensures forall i :: 0 <= i < |missing| ==> DecidedAs(missing[i].query, rows, DoesntExist)
    ensures IsPart(missing, jobs)
  {
    hide *;
    latest, usedBefore, missing := [], [], [];
    ghost var at: seq<nat> := [];
    NothingParted(jobs, rows);
    for i := 0 to |found|
      invariant Parted(latest, usedBefore, missing, at, jobs, i, rows)
    {
      var x := found[i];
      OneParted(latest, usedBefore, missing, at, jobs, i, rows, x, groups[i]);
      match x.status
      case DoesntExist =>
        missing, at := missing + [x.job], at + [i];
      case UsedBefore(sid) =>
        usedBefore := usedBefore + [Reply(x.job, Updated(sid))];
      case Latest(sid) =>
        latest := latest + [Reply(x.job, Current(sid))];
    }
    AllParted(latest, usedBefore, missing, at, jobs, rows);
  }

  /** The first `n` jobs, sorted by what was found for them. */
  ghost predicate Parted(latest: seq<Reply>, usedBefore: seq<Reply>, missing: seq<Job>, at: seq<nat>, jobs: seq<Job>, n: nat, rows: seq<Row>) {
    && Places(missing, jobs, at, n) && n <= |jobs|
    && multiset(JobsOf(latest)) + multiset(JobsOf(usedBefore)) + multiset(missing) == multiset(jobs[..n])
    && |latest| + |usedBefore| + |missing| == n
    && (forall k :: 0 <= k < |latest| ==> latest[k].series.Current? && Earned(latest[k], rows, rows))
    && (forall k :: 0 <= k < |usedBefore| ==> usedBefore[k].series.Updated? && Earned(usedBefore[k], rows, rows))
    && forall k :: 0 <= k < |missing| ==> DecidedAs(missing[k].query, rows, DoesntExist)
  }

  lemma NothingParted(jobs: seq<Job>, rows: seq<Row>)
    ensures Parted([], [], [], [], jobs, 0, rows)
  {
    assert JobsOf([]) == [] && jobs[..0] == [];
  }

  lemma OneParted(latest: seq<Reply>, usedBefore: seq<Reply>, missing: seq<Job>, at: seq<nat>, jobs: seq<Job>, n: nat, rows: seq<Row>,
                  x: Found, group: seq<Row>)
    requires n < |jobs| && Parted(latest, usedBefore, missing, at, jobs, n, rows) && IsDecided(x, jobs[n], group, rows)
    ensures match x.status
            case DoesntExist => Parted(latest, usedBefore, missing + [x.job], at + [n], jobs, n + 1, rows)
            case UsedBefore(sid) => Parted(latest, usedBefore + [Reply(x.job, Updated(sid))], missing, at, jobs, n + 1, rows)
            case Latest(sid) => Parted(latest + [Reply(x.job, Current(sid))], usedBefore, missing, at, jobs, n + 1, rows)
  {
    hide IsDecided, Earned, DecidedAs, JobsOf, Places;
    FoundEarns(x, jobs[n], group, rows);
    PlacesMore(missing, jobs, at, n);
    assert jobs[..n + 1] == jobs[..n] + [x.job];
    match x.status
    case DoesntExist =>
    case UsedBefore(sid) => OneReply(usedBefore, Reply(x.job, Updated(sid)));
    case Latest(sid) => OneReply(latest, Reply(x.job, Current(sid)));
  }

  lemma AllParted(latest: seq<Reply>, usedBefore: seq<Reply>, missing: seq<Job>, at: seq<nat>, jobs: seq<Job>, rows: seq<Row>)
    requires Parted(latest, usedBefore, missing, at, jobs, |jobs|, rows)
    ensures multiset(JobsOf(latest)) + multiset(JobsOf(usedBefore)) + multiset(missing) == multiset(jobs)
    ensures |latest| + |usedBefore| + |missing| == |jobs| && IsPart(missing, jobs)
    ensures forall i :: 0 <= i < |latest| ==> latest[i].series.Current? && Earned(latest[i], rows, rows)
    ensures forall i :: 0 <= i < |usedBefore| ==> usedBefore[i].series.Updated? && Earned(usedBefore[i], rows, rows)
    ensures forall i :: 0 <= i < |missing| ==> DecidedAs(missing[i].query, rows, DoesntExist)
  {
    hide Earned, DecidedAs, JobsOf, Places;
    assert jobs[..|jobs|] == jobs;
    PlacesArePart(missing, jobs, at);
  }

  /** The places in `jobs` of some of them, in order and before `n`. */
  ghost predicate Places(some: seq<Job>, jobs: seq<Job>, at: seq<nat>, n: nat) {
    && |at| == |some| && (forall k :: 0 <= k < |at| ==> at[k] < n <= |jobs| && some[k] == jobs[at[k]])
    && forall k, l :: 0 <= k < l < |at| ==> at[k] < at[l]
  }

  /** Some of the jobs, in order. */
  ghost predicate IsPart(some: seq<Job>, jobs: seq<Job>) {
    exists at :: Places(some, jobs, at, |jobs|)
  }

  lemma PlacesMore(some: seq<Job>, jobs: seq<Job>, at: seq<nat>, n: nat)
    requires n < |jobs| && Places(some, jobs, at, n)
    ensures Places(some, jobs, at, n + 1) && Places(some + [jobs[n]], jobs, at + [n], n + 1)
  {}

  lemma PlacesArePart(some: seq<Job>, jobs: seq<Job>, at: seq<nat>)
    requires Places(some, jobs, at, |jobs|)
    ensures IsPart(some, jobs)
  {}

  /** Some of the jobs ask for different things if all do. */
  lemma PartIsDistinct(some: seq<Job>, jobs: seq<Job>)
    requires IsPart(some, jobs) && DistinctQueries(QueriesOf(jobs))
    ensures DistinctQueries(QueriesOf(some)) && |some| <= |jobs|
  {
    var at :| Places(some, jobs, at, |jobs|);
    forall k, l | 0 <= k < l < |some|
      ensures some[k].query != some[l].query
    {
      assert QueriesOf(jobs)[at[k]] != QueriesOf(jobs)[at[l]];
    }
    NoMore(at, |jobs|);
  }

  lemma {:induction false} NoMore(at: seq<nat>, n: nat)
    requires (forall k :: 0 <= k < |at| ==> at[k] < n) && forall k, l :: 0 <= k < l < |at| ==> at[k] < at[l]
    ensures |at| <= n
  {
    if at != [] { NoMore(at[..|at| - 1], at[|at| - 1]); }
  }

  lemma FoundEarns(f: Found, job: Job, group: seq<Row>, rows: seq<Row>)
    requires IsDecided(f, job, group, rows)
    ensures f.job == job
    ensures match f.status
            case DoesntExist => DecidedAs(job.query, rows, DoesntExist)
            case UsedBefore(sid) => Earned(Reply(job, Updated(sid)), rows, rows)
            case Latest(sid) => Earned(Reply(job, Current(sid)), rows, rows)
  {
    hide IsGroup, Decide;
    assert DecidedAs(job.query, rows, f.status);
  }

  lemma OneReply(replies: seq<Reply>, r: Reply)
    ensures multiset(JobsOf(replies + [r])) == multiset(JobsOf(replies)) + multiset{r.job}
  {
    assert JobsOf(replies + [r]) == JobsOf(replies) + [r.job];
  }

  lemma JoinedReplies(a: seq<Reply>, b: seq<Reply>)
    ensures multiset(JobsOf(a + b)) == multiset(JobsOf(a)) + multiset(JobsOf(b))
  {
    assert JobsOf(a + b) == JobsOf(a) + JobsOf(b);
  }

  /** The replies to the jobs whose rows have been inserted. */
  method CreatedReplies(found: seq<Found>, missing: seq<Job>, ghost groups: seq<seq<Row>>, ghost was: seq<Row>, ghost rows: seq<Row>, ghost now: nat)
    returns (ok: bool, created: seq<Reply>)
    requires |found| == |missing| == |groups| && forall i :: 0 <= i < |missing| ==> IsDecided(found[i], missing[i], groups[i], rows)
    requires Consistent(rows, now)
    requires forall i :: 0 <= i < |missing| ==> HasKey(rows, missing[i].query) && DecidedAs(missing[i].query, was, DoesntExist)
    ensures ok && JobsOf(created) == missing
    ensures forall i :: 0 <= i < |created| ==> created[i].series.Created? && Earned(created[i], was, rows)
  {
    hide IsGroup, Decide, Consistent, HasKey;
    created := [];
    ok := true;
    for i := 0 to |found|
      invariant ok && JobsOf(created) == missing[..i]
      invariant forall k :: 0 <= k < |created| ==> created[k].series.Created? && Earned(created[k], was, rows)
    {
      var x := found[i];
      assert IsDecided(x, missing[i], groups[i], rows);
      assert DecidedAs(x.job.query, rows, x.status);
      PresentIsFound(x.job.query, rows, x.status, now);
      if x.status.DoesntExist? { ok := false; return; }
      created := created + [Reply(x.job, Created(x.status.series))];
    }
  }

  /** What a batch that is handled leaves behind. */
  ghost predicate Handled(jobs: seq<Job>, replies: seq<Reply>, was: seq<Row>, added: seq<Row>, ids: seq<nat>, rows: seq<Row>, now: nat) {
    && multiset(JobsOf(replies)) == multiset(jobs)
    && (forall i :: 0 <= i < |replies| ==> Earned(replies[i], was, was + added) && Answers(replies[i].job.query, replies[i].series.series, rows))
    && rows == Appended(was + added, ids, now) && Added(was, added, QueriesOf(jobs), now)
    && (forall i :: 0 <= i < |replies| && replies[i].series.Updated? ==> replies[i].series.series in ids)
    && (forall s :: s in ids ==> exists i :: 0 <= i < |replies| && replies[i].series == Updated(s))
    && (added != [] ==> exists i :: 0 <= i < |replies| && replies[i].series.Created?)
  }

  // ---------- what a caller is told, in the fields of the rows ----------

  /** The row is of the query's channel, of its type, and of as many dimensions. */
  ghost predicate IsFor(r: Row, q: Query) {
    && r.facility == q.backend && r.channel == q.channel && r.kind == q.kind && r.scalarType == q.scalarType
    && (r.shape.Scalar? <==> q.shape.Scalar?) && (r.shape.Wave? <==> q.shape.Wave?) && (r.shape.Image? <==> q.shape.Image?)
  }

  /** No row of the query's channel was used later. */
  ghost predicate NoneLater(t: nat, q: Query, rows: seq<Row>) {
    forall r, u :: r in rows && r.facility == q.backend && r.channel == q.channel && r.kind == q.kind && u in r.tscs ==> u <= t
  }

  /**
   Current: a row for the query that no row of the channel was used after.  Updated: a row for
   the query, now used again, where one that is not was used no earlier than any.  Created: a new row
   for the query, where there was none.
   */
  ghost predicate Told(q: Query, s: Registered, was: seq<Row>, rows: seq<Row>, now: nat) {
    match s
    case Current(sid) => exists r: Row, t: nat :: r in was && r.series == sid && IsFor(r, q) && t in r.tscs && NoneLater(t, q, was)
    case Updated(sid) =>
      && (exists r: Row :: r in was && r.series == sid && IsFor(r, q) && r.(tscs := r.tscs + [now]) in rows)
      && (exists r: Row, t: nat :: r in was && r.facility == q.backend && r.channel == q.channel && r.kind == q.kind
                                   && !IsFor(r, q) && t in r.tscs && NoneLater(t, q, was))
    case Created(sid) =>
      && (forall r :: r in was ==> !IsFor(r, q))
      && (exists r: Row :: r in rows && r.series == sid && IsFor(r, q) && r.tscs == [now])
  }

  lemma IsForIs(r: Row, q: Query)
    ensures IsFor(r, q) <==> Joins(r, q) && Fits(r, q)
  {
    hide ShapeEquiv;
    ShapeEquivIsDimensions(r.shape, q.shape);
  }

  lemma LatestTold(q: Query, sid: nat, rows: seq<Row>, now: nat)
    requires Consistent(rows, now) && DecidedAs(q, rows, Latest(sid))
    ensures exists r: Row, t: nat :: r in rows && r.series == sid && IsFor(r, q) && t in r.tscs && NoneLater(t, q, rows)
  {
    hide Decide, Fits, Joins, InOrder, IsFor;
    var group :| IsGroup(group, rows, q) && Decide(group, q) == Some(Latest(sid));
    GroupInOrder(group, rows, q, now);
    DecideIsJustified(group, q, now);
    var r: Row, t: nat :| r.series == sid && Fits(r, q) && IsLatest(r, t, group);
    IsForIs(r, q);
    LatestInChannel(group, rows, q, r, t);
  }

  lemma LatestInChannel(group: seq<Row>, rows: seq<Row>, q: Query, r: Row, t: nat)
    requires IsGroup(group, rows, q) && IsLatest(r, t, group)
    ensures r in rows && Joins(r, q) && t in r.tscs && NoneLater(t, q, rows)
  {
    hide Joins;
    forall x: Row, u: nat | x in rows && x.facility == q.backend && x.channel == q.channel && x.kind == q.kind && u in x.tscs
      ensures u <= t
    {
      JoinsIs(x, q);
      assert x in group;
    }
  }

  lemma UsedTold(q: Query, sid: nat, rows: seq<Row>, now: nat)
    requires Consistent(rows, now) && DecidedAs(q, rows, UsedBefore(sid))
    ensures exists r: Row :: r in rows && r.series == sid && IsFor(r, q)
    ensures exists r: Row, t: nat :: r in rows && r.facility == q.backend && r.channel == q.channel && r.kind == q.kind
                                     && !IsFor(r, q) && t in r.tscs && NoneLater(t, q, rows)
  {
    hide Decide, Fits, Joins, InOrder, IsFor;
    var group :| IsGroup(group, rows, q) && Decide(group, q) == Some(UsedBefore(sid));
    GroupInOrder(group, rows, q, now);
    DecideIsJustified(group, q, now);
    var r: Row, t: nat :| r.series == sid && IsLatestFit(r, t, group, q);
    IsForIs(r, q);
    assert r in rows && IsFor(r, q);
    var x: Row, u: nat :| !Fits(x, q) && IsLatest(x, u, group);
    IsForIs(x, q);
    JoinsIs(x, q);
    LatestInChannel(group, rows, q, x, u);
  }

  lemma CreatedTold(q: Query, sid: nat, was: seq<Row>, added: seq<Row>, batch: seq<Query>, ids: seq<nat>, before: nat, now: nat)
    requires Consistent(was, before) && Consistent(was + added, now) && Added(was, added, batch, now)
    requires DecidedAs(q, was, DoesntExist) && Answers(q, sid, was + added)
    requires forall s :: s in ids ==> exists r :: r in was && r.series == s
    ensures forall r :: r in was ==> !IsFor(r, q)
    ensures exists r: Row :: r in Appended(was + added, ids, now) && r.series == sid && IsFor(r, q) && r.tscs == [now]
  {
    hide DecidedAs, Fits, Joins, InOrder, IsFor, HasKey;
    NoneFits(q, was, before);
    forall r | r in was
      ensures !IsFor(r, q)
    {
      IsForIs(r, q);
    }
    var rows := was + added;
    var r :| r in rows && r.series == sid && Joins(r, q) && Fits(r, q);
    IsForIs(r, q);
    var k :| 0 <= k < |rows| && rows[k] == r;
    assert k >= |was| && added[k - |was|] == r;
    NotUsedAgain(was, added, ids, now, k);
  }

  lemma NotUsedAgain(was: seq<Row>, added: seq<Row>, ids: seq<nat>, now: nat, k: nat)
    requires Consistent(was + added, now) && |was| <= k < |was + added|
    requires forall s :: s in ids ==> exists r :: r in was && r.series == s
    ensures (was + added)[k] in Appended(was + added, ids, now)
  {
    hide InOrder;
    var (rows, later) := (was + added, Appended(was + added, ids, now));
    forall r | r in was
      ensures r.series != rows[k].series
    {
      var i :| 0 <= i < |was| && was[i] == r;
      assert rows[i] == r;
    }
    assert later[k] == rows[k];
  }

  lemma UpdatedTold(was: seq<Row>, added: seq<Row>, ids: seq<nat>, now: nat, r: Row)
    requires r in was && r.series in ids
    ensures r.(tscs := r.tscs + [now]) in Appended(was + added, ids, now)
  {
    var k :| 0 <= k < |was| && was[k] == r;
    var later := Appended(was + added, ids, now);
    assert (was + added)[k] == r && later[k] == r.(tscs := r.tscs + [now]);
  }

  /** What the replies of a batch tell. */
  lemma RepliesTold(jobs: seq<Job>, replies: seq<Reply>, was: seq<Row>, added: seq<Row>, ids: seq<nat>, rows: seq<Row>, before: nat, now: nat)
    requires Consistent(was, before) && Consistent(was + added, now) && Handled(jobs, replies, was, added, ids, rows, now)
    requires forall s :: s in ids ==> exists r :: r in was && r.series == s
    ensures forall i :: 0 <= i < |replies| ==> Told(replies[i].job.query, replies[i].series, was, rows, now)
  {
    hide Consistent, DecidedAs, Appended, Added, IsFor, NoneLater, Answers;
    forall i | 0 <= i < |replies|
      ensures Told(replies[i].job.query, replies[i].series, was, rows, now)
    {
      var q := replies[i].job.query;
      assert Earned(replies[i], was, was + added);
      match replies[i].series
      case Current(sid) => LatestTold(q, sid, was, before);
      case Updated(sid) =>
        UsedTold(q, sid, was, before);
        var r: Row :| r in was && r.series == sid && IsFor(r, q);
        UpdatedTold(was, added, ids, now, r);
      case Created(sid) =>
        if DecidedAs(q, was + added, Latest(sid)) {
          JustifiedAnswers(q, was + added, Latest(sid), now);
        } else {
          JustifiedAnswers(q, was + added, UsedBefore(sid), now);
        }
        CreatedTold(q, sid, was, added, QueriesOf(jobs), ids, before, now);
    }
  }

  /** New series for the jobs that have none. */
  method Register(table: Table, missing: seq<Job>, candidate: (nat, nat, nat) -> nat, ghost before: nat, now: nat)
    returns (ok: bool, created: seq<Reply>, ghost added: seq<Row>)
    requires Consistent(table.rows, before) && before < now
    requires forall i :: 0 <= i < |missing| ==> DecidedAs(missing[i].query, table.rows, DoesntExist)
    modifies table
    ensures table.rows == old(table.rows) + added && Consistent(table.rows, now) && Added(old(table.rows), added, QueriesOf(missing), now)
    ensures missing == [] ==> ok && added == []
    ensures ok ==> |added| == |missing| && JobsOf(created) == missing && DistinctQueries(QueriesOf(missing))
    ensures ok ==> forall i :: 0 <= i < |created| ==> created[i].series.Created? && Earned(created[i], old(table.rows), table.rows)
    ensures DistinctQueries(QueriesOf(missing)) && FirstTrialIsNew(old(table.rows), |missing|, candidate) ==> ok
  {
    hide IsGroup, Decide, Consistent, HasKey, Earned, Added, FirstTrialIsNew, DecidedAs;
    ghost var was := table.rows;
    NoneOfThemThere(was, missing, before);
    ok, created, added := true, [], [];
    assert was + [] == was;
    Later(was, before, now);
    NothingAdded(was, QueriesOf(missing), now);
    if |missing| == 0 { return; }
    ghost var trials;
    ok, added, trials := InsertMissing(table, QueriesOf(missing), candidate, now);
    if !ok { return; }
    forall i | 0 <= i < |missing|
      ensures HasKey(table.rows, missing[i].query)
    {
      assert QueriesOf(missing)[i] in QueriesOf(missing);
      KeyInLonger(was, added, missing[i].query);
    }
    var found;
    ghost var groups;
    found, groups := Select(table, missing, now);
    ok, created := CreatedReplies(found.value, missing, groups, was, table.rows, now);
  }

  /** What no row decides for is not in the table. */
  lemma NoneOfThemThere(rows: seq<Row>, missing: seq<Job>, now: nat)
    requires Consistent(rows, now) && forall i :: 0 <= i < |missing| ==> DecidedAs(missing[i].query, rows, DoesntExist)
    ensures NoneThere(rows, QueriesOf(missing))
  {
    hide DecidedAs, HasKey, Consistent;
    forall i | 0 <= i < |missing|
      ensures !HasKey(rows, QueriesOf(missing)[i])
    {
      if HasKey(rows, missing[i].query) { PresentIsFound(missing[i].query, rows, DoesntExist, now); }
    }
  }

  /** Where so many ids are new, fewer are. */
  lemma FewerAreNew(rows: seq<Row>, n: nat, m: nat, candidate: (nat, nat, nat) -> nat)
    requires n <= m && FirstTrialIsNew(rows, m, candidate)
    ensures FirstTrialIsNew(rows, n, candidate)
  {
    hide FirstInRange;
    var more := seq(m, i requires 0 <= i < m => FirstInRange(candidate, i, 1, 1).value);
    var some := seq(n, i requires 0 <= i < n => FirstInRange(candidate, i, 1, 1).value);
    assert forall i :: 0 <= i < n ==> some[i] == more[i];
  }

  /** Jobs of a batch that both get a new series ask for different things. */
  ghost predicate CreatedDiffer(replies: seq<Reply>) {
    forall i, j :: 0 <= i < j < |replies| && replies[i].series.Created? && replies[j].series.Created? ==> replies[i].job.query != replies[j].job.query
  }

  lemma MissingDiffer(latest: seq<Reply>, created: seq<Reply>, usedBefore: seq<Reply>)
    requires (forall i :: 0 <= i < |latest| ==> !latest[i].series.Created?) && forall i :: 0 <= i < |usedBefore| ==> !usedBefore[i].series.Created?
    requires DistinctQueries(QueriesOf(JobsOf(created)))
    ensures CreatedDiffer(latest + created + usedBefore)
  {
    var all := latest + created + usedBefore;
    forall i, j | 0 <= i < j < |all| && all[i].series.Created? && all[j].series.Created?
      ensures all[i].job.query != all[j].job.query
    {
      var (k, l) := (i - |latest|, j - |latest|);
      assert all[i] == created[k] && all[j] == created[l];
      assert QueriesOf(JobsOf(created))[k] != QueriesOf(JobsOf(created))[l];
    }
  }

  lemma KeyInLonger(was: seq<Row>, added: seq<Row>, q: Query)
    requires HasKey(added, q)
    ensures HasKey(was + added, q)
  {
    var i :| 0 <= i < |added| && KeyOf(added[i]) == q;
    assert (was + added)[|was| + i] == added[i];
  }

  /**
   A batch.  It fails only if some job has no series and none could be inserted for it, which
   does not happen if all queries differ and the first hashes that are in range do, too, and are
   not in the table; it does happen if two jobs ask for the same thing that is not there.
   Otherwise every job gets one reply, with a series of the table that answers its query; the
   table has the new rows, and the series used before are used again.
   */
  method HandleBatch(table: Table, jobs: seq<Job>, candidate: (nat, nat, nat) -> nat, ghost before: nat, now: nat)
    returns (ok: bool, replies: seq<Reply>, ghost added: seq<Row>, ghost ids: seq<nat>)
    requires Consistent(table.rows, before) && before < now
    modifies table
    ensures ok ==> Consistent(table.rows, now) && Handled(jobs, replies, old(table.rows), added, ids, table.rows, now)
    ensures ok ==> forall i :: 0 <= i < |replies| ==> Told(replies[i].job.query, replies[i].series, old(table.rows), table.rows, now)
    ensures !ok ==> exists i :: 0 <= i < |jobs| && DecidedAs(jobs[i].query, old(table.rows), DoesntExist)
    ensures DistinctQueries(QueriesOf(jobs)) && FirstTrialIsNew(old(table.rows), |jobs|, candidate) ==> ok
    ensures ok ==> CreatedDiffer(replies)
  {
    hide IsGroup, Decide, Consistent, HasKey, Earned, Added, Answers, Told, Handled, CreatedDiffer, DistinctQueries, FirstTrialIsNew, IsPart, DecidedAs;
    ghost var was := table.rows;
    ok, replies, added, ids := true, [], [], [];
    var res1;
    ghost var groups;
    res1, groups := Select(table, jobs, before);
    var latest, usedBefore, missing := Partition(res1.value, jobs, groups, was);
    if DistinctQueries(QueriesOf(jobs)) && FirstTrialIsNew(was, |jobs|, candidate) {
      PartIsDistinct(missing, jobs);
      FewerAreNew(was, |missing|, |jobs|, candidate);
    }
    var created;
    ok, created, added := Register(table, missing, candidate, before, now);
    if !ok {
      MissingIsJob(jobs, missing, JobsOf(latest), JobsOf(usedBefore));
      return;
    }
    var all := latest + created;
    if |usedBefore| != 0 {
      ids := IdsOf(usedBefore);
      table.Append(IdsOf(usedBefore), now);
    } else {
      AppendNothing(was + added, now);
      assert IdsOf(usedBefore) == [];
    }
    all := all + usedBefore;
    MissingDiffer(latest, created, usedBefore);
    Concluded(jobs, latest, created, usedBefore, missing, was, added, before, now);
    HandledShape(jobs, all, was, added, ids, table.rows, now);
    AllReplied(jobs, all);
    assert Handled(jobs, all, was, added, ids, table.rows, now);
    OldIds(usedBefore, was, was, before);
    RepliesTold(jobs, all, was, added, ids, table.rows, before, now);
    if |all| != |jobs| { ok := false; return; }
    replies := all;
  }

  lemma HandledShape(jobs: seq<Job>, replies: seq<Reply>, was: seq<Row>, added: seq<Row>, ids: seq<nat>, rows: seq<Row>, now: nat)
    requires Handled(jobs, replies, was, added, ids, rows, now)
    ensures multiset(JobsOf(replies)) == multiset(jobs)
  {
    hide Earned, Answers, Added, Appended;
  }

  lemma AllReplied(jobs: seq<Job>, replies: seq<Reply>)
    requires multiset(JobsOf(replies)) == multiset(jobs)
    ensures |replies| == |jobs|
  {
    assert |multiset(JobsOf(replies))| == |replies| && |multiset(jobs)| == |jobs|;
  }

  lemma MissingIsJob(jobs: seq<Job>, missing: seq<Job>, a: seq<Job>, b: seq<Job>)
    requires missing != [] && multiset(a) + multiset(b) + multiset(missing) == multiset(jobs)
    ensures exists i :: 0 <= i < |jobs| && jobs[i] == missing[0]
  {
    assert missing[0] in multiset(missing);
    assert missing[0] in multiset(jobs);
    assert missing[0] in jobs;
  }

  lemma AddedForJobs(jobs: seq<Job>, missing: seq<Job>, was: seq<Row>, added: seq<Row>, now: nat)
    requires Added(was, added, QueriesOf(missing), now) && forall j :: j in missing ==> j in jobs
    ensures Added(was, added, QueriesOf(jobs), now)
  {
    hide HasKey;
    forall i | 0 <= i < |added|
      ensures KeyOf(added[i]) in QueriesOf(jobs)
    {
      var k :| 0 <= k < |missing| && QueriesOf(missing)[k] == KeyOf(added[i]);
      assert missing[k] in jobs;
      var l :| 0 <= l < |jobs| && jobs[l] == missing[k];
      assert QueriesOf(jobs)[l] == KeyOf(added[i]);
    }
  }

  lemma EarnedAnswers(r: Reply, was: seq<Row>, added: seq<Row>, ids: seq<nat>, before: nat, now: nat)
    requires Consistent(was, before) && Consistent(was + added, now) && Earned(r, was, was + added)
    ensures Answers(r.job.query, r.series.series, Appended(was + added, ids, now))
  {
    hide Consistent, DecidedAs, Answers, Appended;
    var q := r.job.query;
    match r.series
    case Current(sid) =>
      JustifiedAnswers(q, was, Latest(sid), before);
      AnswersLater(q, sid, was, added, ids, now);
    case Updated(sid) =>
      JustifiedAnswers(q, was, UsedBefore(sid), before);
      AnswersLater(q, sid, was, added, ids, now);
    case Created(sid) =>
      if DecidedAs(q, was + added, Latest(sid)) {
        JustifiedAnswers(q, was + added, Latest(sid), now);
      } else {
        JustifiedAnswers(q, was + added, UsedBefore(sid), now);
      }
      AnswersLater(q, sid, was + added, [], ids, now);
      assert was + added + [] == was + added;
  }

  /** The ids that are used again are ids of rows that were there. */
  lemma OldIds(usedBefore: seq<Reply>, was: seq<Row>, then_: seq<Row>, before: nat)
    requires Consistent(was, before)
    requires forall i :: 0 <= i < |usedBefore| ==> usedBefore[i].series.Updated? && Earned(usedBefore[i], was, then_)
    ensures forall s :: s in IdsOf(usedBefore) ==> exists r :: r in was && r.series == s
  {
    hide Consistent, DecidedAs;
    forall s | s in IdsOf(usedBefore)
      ensures exists r :: r in was && r.series == s
    {
      var i :| 0 <= i < |usedBefore| && IdsOf(usedBefore)[i] == s;
      assert Earned(usedBefore[i], was, then_);
      JustifiedAnswers(usedBefore[i].job.query, was, UsedBefore(s), before);
      var r :| r in was && r.series == s && Joins(r, usedBefore[i].job.query) && Fits(r, usedBefore[i].job.query);
    }
  }

  lemma Concluded(jobs: seq<Job>, latest: seq<Reply>, created: seq<Reply>, usedBefore: seq<Reply>, missing: seq<Job>,
                  was: seq<Row>, added: seq<Row>, before: nat, now: nat)
    requires Consistent(was, before) && Consistent(was + added, now) && before < now
    requires multiset(JobsOf(latest)) + multiset(JobsOf(usedBefore)) + multiset(missing) == multiset(jobs)
    requires forall i :: 0 <= i < |latest| ==> latest[i].series.Current? && Earned(latest[i], was, was)
    requires forall i :: 0 <= i < |usedBefore| ==> usedBefore[i].series.Updated? && Earned(usedBefore[i], was, was)
    requires JobsOf(created) == missing && |added| == |missing| && Added(was, added, QueriesOf(missing), now)
    requires forall i :: 0 <= i < |created| ==> created[i].series.Created? && Earned(created[i], was, was + added)
    ensures var (ids, rows) := (IdsOf(usedBefore), Appended(was + added, IdsOf(usedBefore), now));
            Consistent(rows, now) && Handled(jobs, latest + created + usedBefore, was, added, ids, rows, now)
  {
    hide Consistent, DecidedAs, Answers, Appended, Added;
    var (replies, ids) := (latest + created + usedBefore, IdsOf(usedBefore));
    OldIds(usedBefore, was, was, before);
    AppendKeeps(was, added, ids, before, now);
    JoinedReplies(latest, created);
    JoinedReplies(latest + created, usedBefore);
    forall j | j in missing
      ensures j in jobs
    {
      assert j in multiset(missing);
      assert j in multiset(jobs);
    }
    AddedForJobs(jobs, missing, was, added, now);
    forall i | 0 <= i < |replies|
      ensures Earned(replies[i], was, was + added) && Answers(replies[i].job.query, replies[i].series.series, Appended(was + added, ids, now))
    {
      EarnedAnswers(replies[i], was, added, ids, before, now);
    }
    forall s | s in ids
      ensures exists i :: 0 <= i < |replies| && replies[i].series == Updated(s)
    {
      var i :| 0 <= i < |usedBefore| && ids[i] == s;
      assert replies[|latest + created| + i] == usedBefore[i];
    }
    forall i | 0 <= i < |replies| && replies[i].series.Updated?
      ensures replies[i].series.series in ids
    {
      var k := i - |latest + created|;
      assert i >= |latest + created| && replies[i] == usedBefore[k];
      assert ids[k] == replies[i].series.series;
    }
    if added != [] { assert replies[|latest|] == created[0]; }
  }

  // ---------- transactions ----------

  /**
   A batch as a transaction; `commits` is whether the database commits it.  What failed leaves
   the table as it was.  But the replies are sent before the commit: if that fails they have
   been sent, and the table stays as it was all the same.
   */
  method Work(table: Table, jobs: seq<Job>, candidate: (nat, nat, nat) -> nat, commits: bool, ghost before: nat, now: nat)
    returns (ok: bool, replies: seq<Reply>, ghost added: seq<Row>, ghost ids: seq<nat>, ghost then_: seq<Row>)
    requires Consistent(table.rows, before) && before < now
    modifies table
    ensures Consistent(table.rows, now) && table.rows == if ok && commits then then_ else old(table.rows)
    ensures ok ==> Consistent(then_, now) && Handled(jobs, replies, old(table.rows), added, ids, then_, now)
    ensures ok ==> forall i :: 0 <= i < |replies| ==> Told(replies[i].job.query, replies[i].series, old(table.rows), then_, now)
    ensures !ok ==> exists i :: 0 <= i < |jobs| && DecidedAs(jobs[i].query, table.rows, DoesntExist)
    ensures DistinctQueries(QueriesOf(jobs)) && FirstTrialIsNew(old(table.rows), |jobs|, candidate) ==> ok
    ensures ok ==> CreatedDiffer(replies)
  {
    hide Consistent, Handled, DecidedAs, Told, CreatedDiffer, DistinctQueries, FirstTrialIsNew;
    var begin := table.rows;
    Later(begin, before, now);
    ok, replies, added, ids := HandleBatch(table, jobs, candidate, before, now);
    then_ := table.rows;
    if !ok || !commits { table.rows := begin; }
  }

  /**
   What the replies of a batch are worth if its commit fails: the series of a reply is in the
   table, with a row that answers the query, if and only if it was not created for it.
   */
  lemma WithoutCommit(jobs: seq<Job>, replies: seq<Reply>, was: seq<Row>, added: seq<Row>, ids: seq<nat>, rows: seq<Row>, before: nat, now: nat, i: nat)
    requires Consistent(was, before) && Handled(jobs, replies, was, added, ids, rows, now) && i < |replies|
    ensures Answers(replies[i].job.query, replies[i].series.series, was) <==> !replies[i].series.Created?
  {
    hide Consistent, DecidedAs, Fits, Joins, Appended, Added;
    var (q, sid) := (replies[i].job.query, replies[i].series.series);
    match replies[i].series
    case Current(_) => JustifiedAnswers(q, was, Latest(sid), before);
    case Updated(_) => JustifiedAnswers(q, was, UsedBefore(sid), before);
    case Created(_) => NoneFits(q, was, before);
  }

  // ---------- asking again ----------

  /** However its rows come, the query is answered with this series as the latest. */
  ghost predicate Settled(q: Query, sid: nat, rows: seq<Row>) {
    forall group, m :: IsGroup(group, rows, q) && Decide(group, q) == Some(m) ==> m == Latest(sid)
  }

  /** Of the rows that join with the query one is last used later than all others; it fits, and has this id. */
  predicate AloneLatest(q: Query, sid: nat, rows: seq<Row>) {
    exists r :: r in rows && r.series == sid && Joins(r, q) && Fits(r, q) &&
      forall s :: s in rows && Joins(s, q) && s != r ==> LastUse(s) < LastUse(r)
  }

  /** The rows that join with a query, but one. */
  function Others(rows: seq<Row>, q: Query, r: Row): seq<Row> {
    if rows == [] then []
    else
      var last := rows[|rows| - 1];
      Others(rows[..|rows| - 1], q, r) + (if Joins(last, q) && last != r then [last] else [])
  }

  lemma {:induction false} OthersAre(rows: seq<Row>, q: Query, r: Row)
    requires forall i, j :: 0 <= i < j < |rows| ==> rows[i] != rows[j]
    ensures Distinct(Others(rows, q, r)) && forall x :: x in Others(rows, q, r) <==> x in rows && Joins(x, q) && x != r
  {
    hide Joins;
    if rows != [] {
      var n := |rows| - 1;
      OthersAre(rows[..n], q, r);
      assert rows == rows[..n] + [rows[n]];
      assert rows[n] !in rows[..n];
    }
  }

  /** Every row that joins may come last in an answer. */
  lemma AnyRowLast(rows: seq<Row>, q: Query, r: Row)
    requires (forall i, j :: 0 <= i < j < |rows| ==> rows[i] != rows[j]) && r in rows && Joins(r, q)
    ensures IsGroup(Others(rows, q, r) + [r], rows, q)
  {
    hide Joins, Others;
    OthersAre(rows, q, r);
  }

  lemma {:induction false} SomeLatest(rows: seq<Row>, q: Query) returns (r: Row)
    requires exists x :: x in rows && Joins(x, q)
    ensures r in rows && Joins(r, q) && forall s :: s in rows && Joins(s, q) ==> LastUse(s) <= LastUse(r)
  {
    hide Joins, LastUse;
    var n := |rows| - 1;
    assert rows == rows[..n] + [rows[n]];
    if exists x :: x in rows[..n] && Joins(x, q) {
      r := SomeLatest(rows[..n], q);
      if Joins(rows[n], q) && LastUse(r) < LastUse(rows[n]) { r := rows[n]; }
    } else {
      r := rows[n];
    }
  }

  /**
   Which reply a query gets depends on the rows alone, and not on the order in which the
   database gives them, with the series as the latest, if and only if of all rows of its
   channel one is last used later than all others, and that row fits.
   */
  lemma SettledIffAloneLatest(q: Query, sid: nat, rows: seq<Row>, now: nat)
    requires Consistent(rows, now)
    ensures Settled(q, sid, rows) <==> AloneLatest(q, sid, rows)
  {
    hide Settled, AloneLatest;
    if AloneLatest(q, sid, rows) { AloneSettles(q, sid, rows, now); }
    if Settled(q, sid, rows) { OnlyAloneSettles(q, sid, rows, now); }
  }

  lemma AloneSettles(q: Query, sid: nat, rows: seq<Row>, now: nat)
    requires Consistent(rows, now) && AloneLatest(q, sid, rows)
    ensures Settled(q, sid, rows)
  {
    hide Decide, Fits, Joins, InOrder;
    var r :| r in rows && r.series == sid && Joins(r, q) && Fits(r, q) && forall s :: s in rows && Joins(s, q) && s != r ==> LastUse(s) < LastUse(r);
    forall group, m | IsGroup(group, rows, q) && Decide(group, q) == Some(m)
      ensures m == Latest(sid)
    {
      GroupInOrder(group, rows, q, now);
      UsedLast(r, now);
      forall x: Row, u: nat | x in group && u in x.tscs && x != r
        ensures u < LastUse(r)
      {
        UsesUpTo(x, u, now);
      }
      LatestDecides(group, q, now, r, LastUse(r));
    }
  }

  lemma UsedLast(r: Row, now: nat)
    requires InOrder(r, now)
    ensures LastUse(r) in r.tscs
  {}

  lemma OnlyAloneSettles(q: Query, sid: nat, rows: seq<Row>, now: nat)
    requires Consistent(rows, now) && Settled(q, sid, rows)
    ensures AloneLatest(q, sid, rows)
  {
    hide Decide, Fits, Joins, InOrder, Others, LastUse, IsGroup;
    if exists x :: x in rows && Joins(x, q) {
      var r := SomeLatest(rows, q);
      LastOfAll(q, sid, rows, now, r);
      forall s | s in rows && Joins(s, q) && s != r
        ensures LastUse(s) < LastUse(r)
      {
        if LastUse(s) == LastUse(r) { LastOfAll(q, sid, rows, now, s); }
      }
    } else {
      assert IsGroup([], rows, q) && Decide([], q) == Some(DoesntExist) by { NoRows(rows, q); }
    }
  }

  lemma NoRows(rows: seq<Row>, q: Query)
    requires !exists x :: x in rows && Joins(x, q)
    ensures IsGroup([], rows, q) && Decide([], q) == Some(DoesntExist)
  {
    hide Joins;
  }

  /** If the reply does not depend on the order, every row that is last used is the one with the id. */
  lemma LastOfAll(q: Query, sid: nat, rows: seq<Row>, now: nat, r: Row)
    requires Consistent(rows, now) && Settled(q, sid, rows)
    requires r in rows && Joins(r, q) && forall s :: s in rows && Joins(s, q) ==> LastUse(s) <= LastUse(r)
    ensures r.series == sid && Fits(r, q)
  {
    hide Decide, Fits, Joins, InOrder, Others, LastUse, IsGroup;
    var group := Others(rows, q, r) + [r];
    OthersAre(rows, q, r);
    AnyRowLast(rows, q, r);
    GroupInOrder(group, rows, q, now);
    LastInAnswerDecides(Others(rows, q, r), r, q, now);
    assert Decide(group, q).Some?;
  }

  /**
   Two rows that a batch registered for one channel have the same last use: as long as neither
   is used again, which of them is the latest is left to the order of the rows.
   */
  lemma TogetherIsOpen(q: Query, sid: nat, rows: seq<Row>, now: nat, a: Row, b: Row)
    requires Consistent(rows, now) && a in rows && b in rows && a != b && Joins(a, q) && Joins(b, q)
    requires LastUse(a) == LastUse(b) == now
    ensures !Settled(q, sid, rows)
  {
    hide Settled, Joins, Fits;
    SettledIffAloneLatest(q, sid, rows, now);
    forall r | r in rows
      ensures LastUse(r) <= now
    {
      var i :| 0 <= i < |rows| && rows[i] == r;
      assert InOrder(rows[i], now);
    }
  }

  /** A row used at a time after all other rows settles its query. */
  lemma SettledByRow(q: Query, rows: seq<Row>, row: Row, before: nat, now: nat)
    requires Consistent(rows, now) && before < now
    requires row in rows && Joins(row, q) && Fits(row, q) && now in row.tscs
    requires forall r, u :: r in rows && r != row && u in r.tscs ==> u <= before
    ensures AloneLatest(q, row.series, rows)
  {
    hide Fits, Joins, InOrder;
    forall r | r in rows
      ensures InOrder(r, now) && LastUse(r) in r.tscs
    {
      var i :| 0 <= i < |rows| && rows[i] == r;
      UsedLast(r, now);
    }
    UsesUpTo(row, now, now);
  }

  lemma TimesBefore(rows: seq<Row>, before: nat)
    requires Consistent(rows, before)
    ensures forall r, u :: r in rows && u in r.tscs ==> u <= before
  {
    forall r, u | r in rows && u in r.tscs
      ensures u <= before
    {
      var i :| 0 <= i < |rows| && rows[i] == r;
      assert InOrder(rows[i], before);
      var k :| 0 <= k < |r.tscs| && r.tscs[k] == u;
      assert k < |r.tscs| - 1 ==> r.tscs[k] < r.tscs[|r.tscs| - 1];
    }
  }

  lemma NoneFits(q: Query, rows: seq<Row>, now: nat)
    requires Consistent(rows, now) && DecidedAs(q, rows, DoesntExist)
    ensures forall r :: r in rows && Joins(r, q) ==> !Fits(r, q)
  {
    hide Decide, Fits, Joins, InOrder;
    var group :| IsGroup(group, rows, q) && Decide(group, q) == Some(DoesntExist);
    GroupInOrder(group, rows, q, now);
    DecideIsJustified(group, q, now);
  }

  lemma OnlyReply(job: Job, replies: seq<Reply>)
    requires multiset(JobsOf(replies)) == multiset([job])
    ensures |replies| == 1 && replies[0].job == job
  {
    AllReplied([job], replies);
    assert JobsOf(replies)[0] in multiset(JobsOf(replies));
  }

  /** A job that got a new series: its row is the only new one. */
  lemma CreatedSettles(q: Query, sid: nat, was: seq<Row>, added: seq<Row>, before: nat, now: nat)
    requires Consistent(was, before) && Consistent(was + added, now) && before < now && Added(was, added, [q], now)
    requires DecidedAs(q, was, DoesntExist) && Answers(q, sid, was + added)
    ensures AloneLatest(q, sid, was + added)
  {
    hide Fits, InOrder, DecidedAs, AloneLatest;
    var rows := was + added;
    NoneFits(q, was, before);
    TimesBefore(was, before);
    var row :| row in rows && row.series == sid && Joins(row, q) && Fits(row, q);
    assert row in added;
    var k :| 0 <= k < |added| && added[k] == row;
    assert KeyOf(row) == q && row.tscs == [now];
    AllAdded(was, added, [q], now);
    assert added == [row];
    assert forall r :: r in rows && r != row ==> r in was;
    SettledByRow(q, rows, row, before, now);
  }

  /** A job whose series was used before: only its row is used now. */
  lemma UpdatedSettles(q: Query, sid: nat, was: seq<Row>, ids: seq<nat>, before: nat, now: nat)
    requires Consistent(was, before) && Consistent(Appended(was, ids, now), now) && before < now
    requires (forall s :: s in ids <==> s == sid) && Answers(q, sid, Appended(was, ids, now))
    ensures AloneLatest(q, sid, Appended(was, ids, now))
  {
    hide Fits, InOrder, AloneLatest;
    var rows := Appended(was, ids, now);
    TimesBefore(was, before);
    var row :| row in rows && row.series == sid && Joins(row, q) && Fits(row, q);
    var k :| 0 <= k < |rows| && rows[k] == row;
    assert row == Used(was[k], ids, now) && row.tscs == was[k].tscs + [now];
    forall r, u | r in rows && r != row && u in r.tscs
      ensures u <= before
    {
      var i :| 0 <= i < |rows| && rows[i] == r;
      assert r.series != row.series;
      assert r == Used(was[i], ids, now) && was[i] in was;
    }
    SettledByRow(q, rows, row, before, now);
  }

  /** After a batch of one query that got a new series or one used before, its row alone is used last; a current one changes nothing. */
  lemma SettledAfter(job: Job, replies: seq<Reply>, was: seq<Row>, added: seq<Row>, ids: seq<nat>, rows: seq<Row>, before: nat, now: nat)
    requires Consistent(was, before) && Consistent(rows, now) && before < now
    requires Handled([job], replies, was, added, ids, rows, now)
    ensures |replies| == 1 && replies[0].job == job
    ensures match replies[0].series
            case Current(sid) => rows == was && DecidedAs(job.query, was, Latest(sid))
            case Updated(sid) => AloneLatest(job.query, sid, rows)
            case Created(sid) => AloneLatest(job.query, sid, rows)
  {
    hide Consistent, DecidedAs, Answers, Appended, AloneLatest;
    OnlyReply(job, replies);
    var r := replies[0];
    assert Earned(r, was, was + added) && Answers(job.query, r.series.series, rows);
    assert QueriesOf([job]) == [job.query];
    assert was + [] == was;
    match r.series
    case Current(sid) =>
      assert added == [];
      NoIds(ids);
      AppendNothing(was, now);
    case Updated(sid) =>
      assert added == [];
      UpdatedSettles(job.query, sid, was, ids, before, now);
    case Created(sid) =>
      NoIds(ids);
      AppendNothing(was + added, now);
      CreatedSettles(job.query, sid, was, added, before, now);
  }

  lemma NoIds(ids: seq<nat>)
    ensures (forall s :: s !in ids) ==> ids == []
  {
    if ids != [] { assert ids[0] in ids; }
  }

  lemma SettledIsCurrent(job: Job, sid: nat, replies: seq<Reply>, was: seq<Row>, added: seq<Row>, ids: seq<nat>, rows: seq<Row>, now: nat)
    requires Settled(job.query, sid, was) && Handled([job], replies, was, added, ids, rows, now)
    ensures replies == [Reply(job, Current(sid))] && rows == was
  {
    hide Decide, IsGroup, Answers, Appended, Added;
    OnlyReply(job, replies);
    assert Earned(replies[0], was, was + added);
    NoIds(ids);
    AppendNothing(was, now);
    assert was + [] == was;
  }

  /**
   A query asked again, at a later time and with nothing in between: if its series was created
   or taken up again the first time, or its row alone was used last before, it is current the
   second time, the same series.  By `SettledIffAloneLatest` that is the
   most that holds: without it some order of the rows gives another reply.
   */
  method AskAgain(table: Table, job: Job, candidate: (nat, nat, nat) -> nat, ghost before: nat, now: nat, now2: nat)
    returns (ok: bool, first: seq<Reply>, second: seq<Reply>)
    requires Consistent(table.rows, before) && before < now < now2
    modifies table
    ensures ok ==> |first| == 1 && first[0].job == job
    ensures ok && (!first[0].series.Current? || AloneLatest(job.query, first[0].series.series, old(table.rows))) ==>
      second == [Reply(job, Current(first[0].series.series))]
  {
    hide Consistent, Handled, DecidedAs, Settled, AloneLatest;
    second := [];
    ghost var added, ids, then_;
    ghost var was := table.rows;
    ok, first, added, ids, then_ := Work(table, [job], candidate, true, before, now);
    if !ok { return; }
    SettledAfter(job, first, was, added, ids, table.rows, before, now);
    var sid := first[0].series.series;
    ghost var rows := table.rows;
    var ok2;
    ok2, second, added, ids, then_ := Work(table, [job], candidate, true, now, now2);
    if AloneLatest(job.query, sid, rows) {
      SettledIffAloneLatest(job.query, sid, rows, now);
      SettledSucceeds(job, sid, rows);
      SettledIsCurrent(job, sid, second, rows, added, ids, then_, now2);
    }
  }

  lemma SettledSucceeds(job: Job, sid: nat, rows: seq<Row>)
    requires Settled(job.query, sid, rows)
    ensures !DecidedAs(job.query, rows, DoesntExist)
  {
    hide Decide, IsGroup;
  }
}
