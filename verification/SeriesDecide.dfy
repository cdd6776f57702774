/** Deciding from the rows of a channel whether a type and shape is registered, and whether it is the one in use. */
module SeriesDecide {
  import opened Bytes
  import opened Netpod
  import opened SeriesTable

  /** One use of a series. */
  datatype Entry = Entry(row: Row, tsc: nat)

  datatype Matching = DoesntExist | UsedBefore(series: nat) | Latest(series: nat)

  /** Shapes are told apart by their kind only, not by their extent. */
  predicate ShapeEquiv(a: Shape, b: Shape) {
    match a
    case Scalar => b.Scalar?
    case Wave(_) => b.Wave?
    case Image(_, _) => b.Image?
  }

  /** Shapes are equivalent exactly if they have as many dimensions. */
  lemma ShapeEquivIsDimensions(a: Shape, b: Shape)
    ensures ShapeEquiv(a, b) <==> (a.Scalar? && b.Scalar?) || (a.Wave? && b.Wave?) || (a.Image? && b.Image?)
  {}

  lemma ShapeEquivIsEquivalence(a: Shape, b: Shape, c: Shape)
    ensures ShapeEquiv(a, a) && (ShapeEquiv(a, b) ==> ShapeEquiv(b, a)) && (ShapeEquiv(a, b) && ShapeEquiv(b, c) ==> ShapeEquiv(a, c))
  {}

  predicate Fits(row: Row, q: Query) {
    row.scalarType == q.scalarType && ShapeEquiv(row.shape, q.shape)
  }

  // ---------- unfolding ----------

  function Uses(row: Row): (r: seq<Entry>)
    ensures |r| == |row.tscs|
  {
    seq(|row.tscs|, i requires 0 <= i < |row.tscs| => Entry(row, row.tscs[i]))
  }

  function Unfolded(rows: seq<Row>): seq<Entry> {
    if rows == [] then [] else Unfolded(rows[..|rows| - 1]) + Uses(rows[|rows| - 1])
  }

  predicate SortedByTime(es: seq<Entry>) {
    forall i, j :: 0 <= i < j < |es| ==> es[i].tsc <= es[j].tsc
  }

  /** A place after the entries that are not later: the sort is stable. */
  function Placed(es: seq<Entry>, e: Entry): (r: seq<Entry>)
    ensures |r| == |es| + 1
  {
    if es == [] || es[|es| - 1].tsc <= e.tsc then es + [e]
    else Placed(es[..|es| - 1], e) + [es[|es| - 1]]
  }

  function SortByTime(es: seq<Entry>): (r: seq<Entry>)
    ensures |r| == |es|
  {
    if es == [] then [] else Placed(SortByTime(es[..|es| - 1]), es[|es| - 1])
  }

  lemma {:induction false} PlacedIs(es: seq<Entry>, e: Entry)
    requires SortedByTime(es)
    ensures SortedByTime(Placed(es, e))
    ensures forall x :: x in Placed(es, e) <==> x in es || x == e
  {
    if es != [] && es[|es| - 1].tsc > e.tsc {
      var (front, last) := (es[..|es| - 1], es[|es| - 1]);
      PlacedIs(front, e);
      var p := Placed(front, e);
      forall x
        ensures x in p + [last] <==> x in es || x == e
      {
        assert es == front + [last];
      }
      forall i | 0 <= i < |p|
        ensures p[i].tsc <= last.tsc
      {
        assert p[i] in p;
        if p[i] in front { var k :| 0 <= k < |front| && front[k] == p[i]; assert es[k] == p[i]; }
      }
    }
  }

  lemma {:induction false} PlacedAdds(es: seq<Entry>, e: Entry)
    ensures multiset(Placed(es, e)) == multiset(es) + multiset{e}
  {
    if es != [] && es[|es| - 1].tsc > e.tsc {
      PlacedAdds(es[..|es| - 1], e);
      assert es == es[..|es| - 1] + [es[|es| - 1]];
    }
  }

  lemma {:induction false} SortIs(es: seq<Entry>)
    ensures SortedByTime(SortByTime(es)) && multiset(SortByTime(es)) == multiset(es)
    ensures forall x :: x in SortByTime(es) <==> x in es
  {
    if es != [] {
      var n := |es| - 1;
      SortIs(es[..n]);
      PlacedIs(SortByTime(es[..n]), es[n]);
      PlacedAdds(SortByTime(es[..n]), es[n]);
      assert es == es[..n] + [es[n]];
    }
  }

  /** The entries of one time. */
  function AtTime(es: seq<Entry>, t: nat): seq<Entry> {
    if es == [] then [] else AtTime(es[..|es| - 1], t) + (if es[|es| - 1].tsc == t then [es[|es| - 1]] else [])
  }

  lemma AtTimeMore(es: seq<Entry>, e: Entry, t: nat)
    ensures AtTime(es + [e], t) == AtTime(es, t) + if e.tsc == t then [e] else []
  {
    assert (es + [e])[..|es|] == es;
  }

  lemma {:induction false} NoneAtTime(es: seq<Entry>, t: nat)
    requires forall i :: 0 <= i < |es| ==> es[i].tsc < t
    ensures AtTime(es, t) == []
  {
    if es != [] { NoneAtTime(es[..|es| - 1], t); }
  }

  lemma {:induction false} PlacedKeepsOrder(es: seq<Entry>, e: Entry, t: nat)
    requires SortedByTime(es)
    ensures AtTime(Placed(es, e), t) == AtTime(es + [e], t)
  {
    AtTimeMore(es, e, t);
    if es != [] && es[|es| - 1].tsc > e.tsc {
      var (front, last) := (es[..|es| - 1], es[|es| - 1]);
      PlacedKeepsOrder(front, e, t);
      AtTimeMore(Placed(front, e), last, t);
      AtTimeMore(front, e, t);
      if e.tsc == t { assert last.tsc != t; }
    }
  }

  /** Sorting is stable: entries of the same time stay in their order. */
  lemma {:induction false} SortIsStable(es: seq<Entry>, t: nat)
    ensures AtTime(SortByTime(es), t) == AtTime(es, t)
  {
    hide AtTime, Placed, SortByTime, SortedByTime;
    SortStep(es);
    if es != [] {
      var (front, last) := (es[..|es| - 1], es[|es| - 1]);
      SortIsStable(front, t);
      SortIs(front);
      PlacedKeepsOrder(SortByTime(front), last, t);
      AtTimeMore(SortByTime(front), last, t);
      AtTimeMore(front, last, t);
      assert es == front + [last];
    }
  }

  lemma SortStep(es: seq<Entry>)
    ensures SortByTime(es) == if es == [] then es else Placed(SortByTime(es[..|es| - 1]), es[|es| - 1])
  {}

  lemma {:induction false} UnfoldedIs(rows: seq<Row>)
    ensures forall e :: e in Unfolded(rows) <==> e.row in rows && e.tsc in e.row.tscs
  {
    if rows != [] {
      var n := |rows| - 1;
      UnfoldedIs(rows[..n]);
      assert rows == rows[..n] + [rows[n]];
      forall e
        ensures e in Uses(rows[n]) <==> e.row == rows[n] && e.tsc in e.row.tscs
      {
        if e.row == rows[n] && e.tsc in e.row.tscs {
          var i :| 0 <= i < |e.row.tscs| && e.row.tscs[i] == e.tsc;
          assert Uses(rows[n])[i] == e;
        }
      }
    }
  }

  // ---------- the decision ----------

  /** The last entry that fits. */
  function LastFit(es: seq<Entry>, q: Query): Option<Entry> {
    if es == [] then None
    else if Fits(es[|es| - 1].row, q) then Some(es[|es| - 1])
    else LastFit(es[..|es| - 1], q)
  }

  function Decision(es: seq<Entry>, q: Query): Matching {
    if es == [] then DoesntExist
    else if Fits(es[|es| - 1].row, q) then Latest(es[|es| - 1].row.series)
    else
      match LastFit(es, q)
      case Some(e) => UsedBefore(e.row.series)
      case None => DoesntExist
  }

  /** None if some row's times are not in order. */
  function Decide(rows: seq<Row>, q: Query): Option<Matching> {
    if exists i :: 0 <= i < |rows| && !Ascending(rows[i].tscs) then None
    else Some(Decision(SortByTime(Unfolded(rows)), q))
  }

  /** The rows are refused exactly if some row has two uses that are not in order. */
  lemma RefusedIfUnordered(rows: seq<Row>, q: Query)
    ensures Decide(rows, q) == None <==>
      exists k, i, j :: 0 <= k < |rows| && 0 <= i < j < |rows[k].tscs| && rows[k].tscs[i] >= rows[k].tscs[j]
  {
    hide SortByTime, Unfolded, Decision;
  }

  lemma {:induction false} LastFitIs(es: seq<Entry>, q: Query)
    requires SortedByTime(es)
    ensures match LastFit(es, q)
            case Some(e) => e in es && Fits(e.row, q) && forall x :: x in es && Fits(x.row, q) ==> x.tsc <= e.tsc
            case None => forall x :: x in es ==> !Fits(x.row, q)
  {
    if es != [] && !Fits(es[|es| - 1].row, q) {
      var n := |es| - 1;
      LastFitIs(es[..n], q);
      assert es == es[..n] + [es[n]];
    }
  }

  /** The latest use in some rows. */
  ghost predicate IsLatest(row: Row, t: nat, rows: seq<Row>) {
    row in rows && t in row.tscs && forall r, u :: r in rows && u in r.tscs ==> u <= t
  }

  /** A use of a fitting row, and no fitting row is used later. */
  ghost predicate IsLatestFit(row: Row, t: nat, rows: seq<Row>, q: Query) {
    row in rows && t in row.tscs && Fits(row, q) && forall r, u :: r in rows && Fits(r, q) && u in r.tscs ==> u <= t
  }

  /** What a decision says about the rows it was made from, in whatever order they came. */
  ghost predicate Justified(m: Matching, rows: seq<Row>, q: Query) {
    match m
    case DoesntExist => forall r :: r in rows ==> !Fits(r, q)
    case Latest(sid) => exists r: Row, t: nat :: r.series == sid && Fits(r, q) && IsLatest(r, t, rows)
    case UsedBefore(sid) =>
      && (exists r: Row, t: nat :: r.series == sid && IsLatestFit(r, t, rows, q))
      && (exists r: Row, t: nat :: !Fits(r, q) && IsLatest(r, t, rows))
  }

  lemma DecideIsJustified(rows: seq<Row>, q: Query, now: nat)
    requires forall r :: r in rows ==> InOrder(r, now)
    ensures Decide(rows, q).Some? && Justified(Decide(rows, q).value, rows, q)
  {
    hide SortByTime, Unfolded, Fits, LastFit, InOrder;
    assert forall i :: 0 <= i < |rows| ==> Ascending(rows[i].tscs) && rows[i].tscs != [] by { RowsInOrder(rows, now); }
    var es := SortByTime(Unfolded(rows));
    SortIs(Unfolded(rows));
    UnfoldedIs(rows);
    LastFitIs(es, q);
    if es == [] {
      Empty(rows, es);
    } else {
      var last := es[|es| - 1];
      LastIsLatest(rows, es);
      if Fits(last.row, q) {
      } else if LastFit(es, q).Some? {
        var e := LastFit(es, q).value;
        FitIsLatest(rows, es, q, e);
      } else {
        forall r | r in rows
          ensures !Fits(r, q)
        {
          assert r.tscs != [];
          assert Entry(r, r.tscs[0]) in es;
        }
      }
    }
  }

  lemma RowsInOrder(rows: seq<Row>, now: nat)
    requires forall r :: r in rows ==> InOrder(r, now)
    ensures forall i :: 0 <= i < |rows| ==> Ascending(rows[i].tscs) && rows[i].tscs != []
  {
    forall i | 0 <= i < |rows|
      ensures Ascending(rows[i].tscs) && rows[i].tscs != []
    {
      assert rows[i] in rows;
    }
  }

  lemma Empty(rows: seq<Row>, es: seq<Entry>)
    requires forall e :: e in es <==> e.row in rows && e.tsc in e.row.tscs
    requires forall i :: 0 <= i < |rows| ==> rows[i].tscs != []
    ensures rows != [] ==> es != []
  {
    if rows != [] {
      assert Entry(rows[0], rows[0].tscs[0]) in es;
    }
  }

  lemma LastIsLatest(rows: seq<Row>, es: seq<Entry>)
    requires es != [] && SortedByTime(es) && forall e :: e in es <==> e.row in rows && e.tsc in e.row.tscs
    ensures IsLatest(es[|es| - 1].row, es[|es| - 1].tsc, rows)
  {
    var last := es[|es| - 1];
    forall r, u | r in rows && u in r.tscs
      ensures u <= last.tsc
    {
      assert Entry(r, u) in es;
    }
  }

  lemma FitIsLatest(rows: seq<Row>, es: seq<Entry>, q: Query, e: Entry)
    requires e in es && Fits(e.row, q) && forall x :: x in es && Fits(x.row, q) ==> x.tsc <= e.tsc
    requires forall e :: e in es <==> e.row in rows && e.tsc in e.row.tscs
    ensures IsLatestFit(e.row, e.tsc, rows, q)
  {
    hide Fits;
    forall r, u | r in rows && Fits(r, q) && u in r.tscs
      ensures u <= e.tsc
    {
      assert Entry(r, u) in es;
    }
  }

  /** If one row is used later than all others, only that row decides. */
  lemma LatestDecides(rows: seq<Row>, q: Query, now: nat, row: Row, t: nat)
    requires forall r :: r in rows ==> InOrder(r, now)
    requires row in rows && t in row.tscs && Fits(row, q)
    requires forall r, u :: r in rows && u in r.tscs && r != row ==> u < t
    ensures Decide(rows, q) == Some(Latest(row.series))
  {
    hide Fits, InOrder, Decide, IsLatest;
    DecideIsJustified(rows, q, now);
    OnlyLatest(rows, row, t);
  }

  lemma OnlyLatest(rows: seq<Row>, row: Row, t: nat)
    requires row in rows && t in row.tscs && forall r, u :: r in rows && u in r.tscs && r != row ==> u < t
    ensures forall r: Row, u: nat :: IsLatest(r, u, rows) ==> r == row
  {
    forall r: Row, u: nat | IsLatest(r, u, rows)
      ensures r == row
    {
      assert t <= u;
    }
  }

  /** The last use of a row. */
  function LastUse(row: Row): nat {
    if row.tscs == [] then 0 else row.tscs[|row.tscs| - 1]
  }

  /** Where two rows are used last at the same time, or one alone is last, the one that comes last in the answer decides. */
  lemma LastInAnswerDecides(rows: seq<Row>, r: Row, q: Query, now: nat)
    requires forall x :: x in rows + [r] ==> InOrder(x, now)
    requires forall x :: x in rows ==> LastUse(x) <= LastUse(r)
    ensures var d := Decide(rows + [r], q); d.Some? && if Fits(r, q) then d == Some(Latest(r.series)) else !d.value.Latest?
  {
    hide Fits, SortByTime, Unfolded;
    var all := rows + [r];
    assert r in all && InOrder(r, now);
    RowsInOrder(all, now);
    var (es, uses) := (Unfolded(rows), Uses(r));
    var e := uses[|uses| - 1];
    assert Unfolded(all) == es + uses by { UnfoldedMore(rows, r); }
    assert es + uses == es + uses[..|uses| - 1] + [e];
    forall x | x in es + uses[..|uses| - 1]
      ensures x.tsc <= e.tsc
    {
      UnfoldedIs(all);
      assert x in Unfolded(all);
      UsesUpTo(x.row, x.tsc, now);
    }
    PlacedLast(es + uses[..|uses| - 1], e);
  }

  lemma UnfoldedMore(rows: seq<Row>, r: Row)
    ensures Unfolded(rows + [r]) == Unfolded(rows) + Uses(r)
  {
    assert (rows + [r])[..|rows|] == rows;
  }

  lemma UsesUpTo(r: Row, t: nat, now: nat)
    requires InOrder(r, now) && t in r.tscs
    ensures t <= LastUse(r)
  {
    var i :| 0 <= i < |r.tscs| && r.tscs[i] == t;
    assert i < |r.tscs| - 1 ==> r.tscs[i] < r.tscs[|r.tscs| - 1];
  }

  /** An entry that is not earlier than any before it stays last when they are sorted. */
  lemma PlacedLast(es: seq<Entry>, e: Entry)
    requires forall x :: x in es ==> x.tsc <= e.tsc
    ensures SortByTime(es + [e]) == SortByTime(es) + [e]
  {
    assert (es + [e])[..|es|] == es;
    SortIs(es);
    var sorted := SortByTime(es);
    if es != [] { assert sorted[|sorted| - 1] in sorted; }
  }

  /** With uses at the same time the order in which the rows come decides. */
  lemma TiesAreOpen()
    ensures var q := Query("b", "c", 0, 1, Scalar);
            var (r, s) := (Row(1, "b", "c", 0, 1, Scalar, [5]), Row(2, "b", "c", 0, 2, Scalar, [5]));
            Decide([s, r], q) == Some(Latest(1)) && Decide([r, s], q) == Some(UsedBefore(1))
  {
    var q := Query("b", "c", 0, 1, Scalar);
    var (r, s) := (Row(1, "b", "c", 0, 1, Scalar, [5]), Row(2, "b", "c", 0, 2, Scalar, [5]));
    assert [s, r] == [s] + [r] && [r, s] == [r] + [s];
    LastInAnswerDecides([s], r, q, 5);
    LastInAnswerDecides([r], s, q, 5);
    DecideIsJustified([r, s], q, 5);
    assert r in [r, s] && Fits(r, q) && !Fits(s, q);
  }
}
