/** The table of registered series, with the statements that are run against it. */
module SeriesTable {
  import opened Netpod

  /** The agg_kind of all rows is 0 here. */
  datatype Row = Row(series: nat, facility: string, channel: string, kind: nat, scalarType: nat, shape: Shape, tscs: seq<nat>)

  /** What a caller asks for. */
  datatype Query = Query(backend: string, channel: string, kind: nat, scalarType: nat, shape: Shape)

  /** A row of an answer: the number of the query it belongs to, and the row of the table. */
  datatype Answered = Answered(rid: nat, row: Row)

  predicate Joins(row: Row, q: Query) {
    row.facility == q.backend && row.channel == q.channel && row.kind == q.kind
  }

  /** A row joins with a query exactly if backend, channel and kind are those of the query. */
  lemma JoinsIs(row: Row, q: Query)
    ensures Joins(row, q) <==> row.facility == q.backend && row.channel == q.channel && row.kind == q.kind
  {}

  /** What the unique constraint of the table is about. */
  function KeyOf(row: Row): Query {
    Query(row.facility, row.channel, row.kind, row.scalarType, row.shape)
  }

  predicate Ascending(ts: seq<nat>) {
    forall i, j :: 0 <= i < j < |ts| ==> ts[i] < ts[j]
  }

  /** The constraints of the table, and times of use that are in order and not in the future. */
  ghost predicate Consistent(rows: seq<Row>, now: nat) {
    && (forall i, j :: 0 <= i < j < |rows| ==> rows[i].series != rows[j].series && KeyOf(rows[i]) != KeyOf(rows[j]))
    && (forall i :: 0 <= i < |rows| ==> InOrder(rows[i], now))
  }

  predicate InOrder(row: Row, now: nat) {
    row.tscs != [] && Ascending(row.tscs) && row.tscs[|row.tscs| - 1] <= now
  }

  // ---------- select ----------

  function Group(answer: seq<Answered>, rid: nat): seq<Row> {
    if answer == [] then []
    else Group(answer[..|answer| - 1], rid) + (if answer[|answer| - 1].rid == rid then [answer[|answer| - 1].row] else [])
  }

  predicate Distinct(rows: seq<Row>) {
    forall i, j :: 0 <= i < j < |rows| ==> rows[i] != rows[j]
  }

  /** An answer in the order of the queries; the rows of one query come in any order. */
  ghost predicate IsAnswer(answer: seq<Answered>, rows: seq<Row>, batch: seq<Query>) {
    && (forall i, j :: 0 <= i < j < |answer| ==> answer[i].rid <= answer[j].rid)
    && (forall i :: 0 <= i < |answer| ==> answer[i].rid < |batch|)
    && (forall k :: 0 <= k < |batch| ==> IsGroup(Group(answer, k), rows, batch[k]))
  }

  /** The rows that join with a query, each once. */
  ghost predicate IsGroup(group: seq<Row>, rows: seq<Row>, q: Query) {
    Distinct(group) && forall r :: r in group <==> r in rows && Joins(r, q)
  }

  lemma GroupMore(answer: seq<Answered>, a: Answered, rid: nat)
    ensures Group(answer + [a], rid) == Group(answer, rid) + if a.rid == rid then [a.row] else []
  {
    assert (answer + [a])[..|answer|] == answer;
  }

  lemma {:induction false} NoGroup(answer: seq<Answered>, rid: nat)
    requires forall i :: 0 <= i < |answer| ==> answer[i].rid != rid
    ensures Group(answer, rid) == []
  {
    if answer != [] { NoGroup(answer[..|answer| - 1], rid); }
  }

  // ---------- insert ----------

  /** The row cannot be inserted: its id or its key is there already. */
  predicate Conflicts(rows: seq<Row>, row: Row) {
    exists i :: 0 <= i < |rows| && (rows[i].series == row.series || KeyOf(rows[i]) == KeyOf(row))
  }

  /** A row is kept out exactly if a row of the table has its id, or all of what it is registered under. */
  lemma ConflictsIs(rows: seq<Row>, row: Row)
    ensures Conflicts(rows, row) <==>
      || (exists i :: 0 <= i < |rows| && rows[i].series == row.series)
      || (exists i :: 0 <= i < |rows| && rows[i].facility == row.facility && rows[i].channel == row.channel
                      && rows[i].kind == row.kind && rows[i].scalarType == row.scalarType && rows[i].shape == row.shape)
  {}

  predicate HasKey(rows: seq<Row>, q: Query) {
    exists i :: 0 <= i < |rows| && KeyOf(rows[i]) == q
  }

  function NewRow(q: Query, series: nat, now: nat): Row {
    Row(series, q.backend, q.channel, q.kind, q.scalarType, q.shape, [now])
  }

  class Table {
    var rows: seq<Row>

    constructor ()
      ensures rows == []
    {
      rows := [];
    }

    /** The rows that join with the queries, in the order of the queries. */
    method Select(batch: seq<Query>) returns (answer: seq<Answered>)
      requires forall i, j :: 0 <= i < j < |rows| ==> rows[i] != rows[j]
      ensures IsAnswer(answer, rows, batch)
      ensures forall k: nat, r :: k < |batch| ==>
        (r in Group(answer, k) <==> r in rows && r.facility == batch[k].backend && r.channel == batch[k].channel && r.kind == batch[k].kind)
    {
      hide Group, IsGroup, Joins;
      answer := [];
      for k := 0 to |batch|
        invariant forall i, j :: 0 <= i < j < |answer| ==> answer[i].rid <= answer[j].rid
        invariant forall i :: 0 <= i < |answer| ==> answer[i].rid < k
        invariant forall l :: 0 <= l < k ==> IsGroup(Group(answer, l), rows, batch[l])
      {
        ghost var before := answer;
        NoGroup(answer, k);
        PartStart(rows, batch[k]);
        for i := 0 to |rows|
          invariant forall i, j :: 0 <= i < j < |answer| ==> answer[i].rid <= answer[j].rid
          invariant forall i :: 0 <= i < |answer| ==> answer[i].rid <= k
          invariant forall l :: 0 <= l < k ==> IsGroup(Group(answer, l), rows, batch[l])
          invariant PartGroup(Group(answer, k), rows, i, batch[k])
        {
          PartNext(Group(answer, k), rows, i, batch[k]);
          if Joins(rows[i], batch[k]) {
            var a := Answered(k, rows[i]);
            forall l | 0 <= l <= k
              ensures Group(answer + [a], l) == Group(answer, l) + if k == l then [a.row] else []
            {
              GroupMore(answer, a, l);
            }
            assert forall l :: 0 <= l < k ==> Group(answer, l) + [] == Group(answer, l);
            answer := answer + [a];
          }
        }
        PartIsGroup(Group(answer, k), rows, batch[k]);
      }
      AnswerRows(answer, rows, batch);
    }

    /** Inserts what does not conflict, one after the other, and counts. */
    method Insert(batch: seq<Query>, ids: seq<nat>, now: nat) returns (count: nat)
      requires |ids| == |batch|
      modifies this
      ensures rows == Inserted(old(rows), batch, ids, now) && count == |rows| - |old(rows)|
    {
      count := 0;
      for i := 0 to |batch|
        invariant rows == Inserted(old(rows), batch[..i], ids[..i], now) && count == |rows| - |old(rows)|
      {
        var row := NewRow(batch[i], ids[i], now);
        assert batch[..i + 1][..i] == batch[..i] && ids[..i + 1][..i] == ids[..i];
        if !Conflicts(rows, row) {
          rows := rows + [row];
          count := count + 1;
        }
      }
      assert batch[..|batch|] == batch && ids[..|batch|] == ids;
    }

    /** Appends the time to the rows with the given ids. */
    method Append(ids: seq<nat>, now: nat)
      modifies this
      ensures rows == Appended(old(rows), ids, now)
    {
      for i := 0 to |rows|
        invariant |rows| == |old(rows)|
        invariant forall k :: 0 <= k < i ==> rows[k] == Used(old(rows)[k], ids, now)
        invariant forall k :: i <= k < |rows| ==> rows[k] == old(rows)[k]
      {
        if rows[i].series in ids { rows := rows[i := rows[i].(tscs := rows[i].tscs + [now])]; }
      }
    }
  }

  lemma AnswerRows(answer: seq<Answered>, rows: seq<Row>, batch: seq<Query>)
    requires forall k :: 0 <= k < |batch| ==> IsGroup(Group(answer, k), rows, batch[k])
    ensures forall k: nat, r :: k < |batch| ==>
      (r in Group(answer, k) <==> r in rows && r.facility == batch[k].backend && r.channel == batch[k].channel && r.kind == batch[k].kind)
  {
    hide Group;
    forall k: nat, r | k < |batch|
      ensures r in Group(answer, k) <==> r in rows && r.facility == batch[k].backend && r.channel == batch[k].channel && r.kind == batch[k].kind
    {
      assert IsGroup(Group(answer, k), rows, batch[k]);
      JoinsIs(r, batch[k]);
    }
  }

  /** The group while the first `n` rows have been looked at. */
  ghost predicate PartGroup(group: seq<Row>, rows: seq<Row>, n: nat, q: Query)
    requires n <= |rows|
  {
    IsGroup(group, rows[..n], q)
  }

  lemma PartStart(rows: seq<Row>, q: Query)
    ensures PartGroup([], rows, 0, q)
  {}

  lemma PartNext(group: seq<Row>, rows: seq<Row>, n: nat, q: Query)
    requires n < |rows| && PartGroup(group, rows, n, q) && forall i, j :: 0 <= i < j < |rows| ==> rows[i] != rows[j]
    ensures PartGroup(if Joins(rows[n], q) then group + [rows[n]] else group, rows, n + 1, q)
  {
    var more := if Joins(rows[n], q) then group + [rows[n]] else group;
    assert rows[..n + 1] == rows[..n] + [rows[n]];
    assert rows[n] !in rows[..n];
    forall r
      ensures r in more <==> r in rows[..n + 1] && Joins(r, q)
    {
      assert r in rows[..n + 1] <==> r in rows[..n] || r == rows[n];
    }
  }

  lemma PartIsGroup(group: seq<Row>, rows: seq<Row>, q: Query)
    requires PartGroup(group, rows, |rows|, q)
    ensures IsGroup(group, rows, q)
  {
    assert rows[..|rows|] == rows;
  }

  function Inserted(rows: seq<Row>, batch: seq<Query>, ids: seq<nat>, now: nat): (r: seq<Row>)
    requires |ids| == |batch|
    ensures |rows| <= |r|
  {
    if batch == [] then rows
    else
      var n := |batch| - 1;
      var before := Inserted(rows, batch[..n], ids[..n], now);
      var row := NewRow(batch[n], ids[n], now);
      if Conflicts(before, row) then before else before + [row]
  }

  function Used(row: Row, ids: seq<nat>, now: nat): Row {
    if row.series in ids then row.(tscs := row.tscs + [now]) else row
  }

  function Appended(rows: seq<Row>, ids: seq<nat>, now: nat): (r: seq<Row>)
    ensures |r| == |rows|
  {
    seq(|rows|, i requires 0 <= i < |rows| => Used(rows[i], ids, now))
  }
}
