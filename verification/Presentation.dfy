/** What the reader of a view is shown, and in which order. */
module Presentation {
  import opened ReportTypes
  import opened Sequences
  import opened Tables
  import opened Views
  import opened Summaries
  import opened Runs
  import opened Silence
  import Text

  // ---- one tile per producer, in order ------------------------------------------------------

  function TileProducer(): Tile -> Producer {
    (t: Tile) => t.producer
  }

  lemma {:induction false} TilesNameProducers(db: Db, order: seq<Producer>, now: Time)
    requires forall p :: p in order ==> p in db.latest && PointsAtGreatest(db, p)
    ensures Map(TilesFor(db, order, now), TileProducer()) == order
  {
    if order != [] {
      var init, p := order[..|order| - 1], Last(order);
      TilesNameProducers(db, init, now);
      assert PointsAtGreatest(db, p);
      MapAppend(TilesFor(db, init, now), TileRow(db, db.latest[p], now), TileProducer());
      assert order == init + [p];
    }
  }

  /** The overview lists every producer that ever reported, each once, by source and collector. */
  lemma OverviewListsEachProducerOnce(ops: seq<Op>, now: Time)
    ensures var producers := Map(OverviewAt(State(ops), now), TileProducer());
      (forall p :: p in producers <==> p in Producers(State(ops).reports))
      && forall i, j :: 0 <= i < j < |producers| ==>
           Text.Below(producers[i].source, producers[j].source)
           || (producers[i].source == producers[j].source
               && Text.Below(producers[i].collector, producers[j].collector))
  {
    PointerIsTheWindow(ops);
    var db := State(ops);
    TilesNameProducers(db, SortedProducers(db.latest.Keys), now);
  }

  // ---- failures first -------------------------------------------------------------------------

  lemma RowOrderTotalOn(c: CheckRow, d: CheckRow)
    ensures RowOrder()(c, d) || RowOrder()(d, c)
  {
    SeverityDecides(c.check.verdict, d.check.verdict);
    ProducerBelowTotal(c.producer, d.producer);
    Text.BelowTotal(c.check.section, d.check.section);
  }

  lemma SeverityDecides(v: Verdict, w: Verdict)
    ensures v.Severity() == w.Severity() <==> v == w
  {
  }

  lemma RowOrderTransitiveOn(c: CheckRow, d: CheckRow, e: CheckRow)
    requires RowOrder()(c, d) && RowOrder()(d, e)
    ensures RowOrder()(c, e)
  {
    SeverityDecides(c.check.verdict, d.check.verdict);
    SeverityDecides(d.check.verdict, e.check.verdict);
    if ProducerBelow(c.producer, d.producer) && ProducerBelow(d.producer, e.producer) {
      ProducerBelowTransitive(c.producer, d.producer, e.producer);
    }
    if Text.Below(c.check.section, d.check.section) && Text.Below(d.check.section, e.check.section) {
      Text.BelowTransitive(c.check.section, d.check.section, e.check.section);
    }
  }

  lemma RowOrderTotal()
    ensures TotalOrder(RowOrder())
  {
    forall c: CheckRow, d: CheckRow ensures RowOrder()(c, d) || RowOrder()(d, c) {
      RowOrderTotalOn(c, d);
    }
    forall c: CheckRow, d: CheckRow, e: CheckRow | RowOrder()(c, d) && RowOrder()(d, e) ensures RowOrder()(c, e) {
      RowOrderTransitiveOn(c, d, e);
    }
  }

  lemma {:induction false} FilterKeepsOrder<T>(xs: seq<T>, keep: T -> bool, leq: (T, T) -> bool)
    requires Ordered(xs, leq)
    ensures Ordered(Filter(xs, keep), leq)
  {
    if xs != [] {
      var init := xs[..|xs| - 1];
      FilterKeepsOrder(init, keep, leq);
      var kept := Filter(init, keep);
      forall i | 0 <= i < |kept| ensures leq(kept[i], Last(xs)) {
        FilterMember(init, keep, kept[i]);
        var j :| 0 <= j < |init| && init[j] == kept[i];
      }
    }
  }

  /** The open problems show check rows; no warning comes before a failure, and rows of one verdict
      come by producer, section and position in their report. */
  lemma ProblemsInOrder(db: Db, now: Time) returns (rows: seq<CheckRow>)
    ensures var ps := ProblemsAt(db, now).checks;
      |rows| == |ps|
      && (forall i :: 0 <= i < |ps| ==>
            rows[i] in db.checks && ps[i] == ProblemCheckOf(rows[i], FirstSeen(db.since, rows[i])))
      && forall i, j :: 0 <= i < j < |ps| ==>
           ps[i].verdict.Severity() > ps[j].verdict.Severity()
           || (ps[i].verdict == ps[j].verdict
               && (Text.Below(ps[i].producer.source, ps[j].producer.source)
                   || (ps[i].producer.source == ps[j].producer.source
                       && Text.Below(ps[i].producer.collector, ps[j].producer.collector))
                   || (ps[i].producer == ps[j].producer
                       && (Text.Below(ps[i].section, ps[j].section)
                           || (ps[i].section == ps[j].section && rows[i].pos <= rows[j].pos)))))
  {
    RowOrderTotal();
    SortOrdered(Filter(db.checks, CurrentBad(db.latest)), RowOrder());
    FilterKeepsOrder(ProblemRows(db), Unmuted(ListMutes(db, now)), RowOrder());
    rows := Filter(ProblemRows(db), Unmuted(ListMutes(db, now)));
    var ps := ProblemsAt(db, now).checks;
    forall i | 0 <= i < |rows| ensures rows[i] in db.checks {
      FilterMember(ProblemRows(db), Unmuted(ListMutes(db, now)), rows[i]);
      ProblemRowMember(db, rows[i]);
    }
    hide Filter, ProblemRows, ListMutes;
    forall i, j | 0 <= i < j < |ps|
      ensures RowOrder()(rows[i], rows[j]) && ps[i].verdict == rows[i].check.verdict
              && ps[j].verdict == rows[j].check.verdict
    {
    }
  }

  // ---- history ----------------------------------------------------------------------------------

  /** The row belongs in the history: the producer's check of that section and label, collected in
      the window, both ends included. */
  predicate InHistory(c: CheckRow, key: CheckKey, from: Time, to: Time) {
    c.producer == key.producer && c.check.section == key.section && c.check.name == key.name
    && from <= c.collectedAt && c.collectedAt <= to
  }

  /** A history shows the rows of its key in the window, each as often as it is stored, oldest
      first: when it was collected, its verdict and its value. */
  lemma HistoryCompleteAndOrdered(db: Db, key: CheckKey, from: Time, to: Time) returns (rows: seq<CheckRow>)
    ensures forall c :: multiset(rows)[c] == if InHistory(c, key, from, to) then multiset(db.checks)[c] else 0
    ensures forall i, j :: 0 <= i < j < |rows| ==> rows[i].collectedAt <= rows[j].collectedAt
    ensures var h := HistoryOf(db, key, from, to);
      h.key == key && |h.points| == |rows|
      && forall i :: 0 <= i < |rows| ==>
           h.points[i] == HistoryPoint(rows[i].collectedAt, rows[i].check.verdict, rows[i].check.value)
  {
    var kept := Filter(db.checks, ForKey(key, from, to));
    rows := Sort(kept, OldestFirst());
    forall c ensures multiset(kept)[c] == if InHistory(c, key, from, to) then multiset(db.checks)[c] else 0 {
      FilterMultiplicity(db.checks, ForKey(key, from, to), c);
    }
    assert TotalOrder(OldestFirst());
    SortOrdered(kept, OldestFirst());
    forall i, j | 0 <= i < j < |rows| ensures rows[i].collectedAt <= rows[j].collectedAt {
      assert OldestFirst()(rows[i], rows[j]);
    }
  }

  lemma {:induction false} LatestUnitSpec(rows: seq<CheckRow>)
    ensures LatestUnit(rows).None? <==> forall r :: r in rows ==> r.check.unit.None?
    ensures LatestUnit(rows).Some? ==>
      exists i :: 0 <= i < |rows| && rows[i].check.unit == LatestUnit(rows)
                  && forall j :: i < j < |rows| ==> rows[j].check.unit.None?
  {
    if rows != [] {
      var init := rows[..|rows| - 1];
      assert rows == init + [Last(rows)];
      LatestUnitSpec(init);
      if Last(rows).check.unit.Some? {
        assert Last(rows) in rows && rows[|rows| - 1] == Last(rows);
      } else if LatestUnit(init).Some? {
        var i :| 0 <= i < |init| && init[i].check.unit == LatestUnit(init)
                 && forall j :: i < j < |init| ==> init[j].check.unit.None?;
        assert rows[i] == init[i];
      }
    }
  }

  /** The unit taken from rows in time order is the most recent one. */
  lemma OrderedUnitIsMostRecent(rows: seq<CheckRow>, sorted: seq<CheckRow>)
    requires multiset(rows) == multiset(sorted) && Ordered(sorted, OldestFirst())
    ensures LatestUnit(sorted).None? <==> forall r :: r in rows ==> r.check.unit.None?
    ensures LatestUnit(sorted).Some? ==> exists r :: HasNewestUnit(rows, r) && r.check.unit == LatestUnit(sorted)
  {
    LatestUnitSpec(sorted);
    forall r ensures r in rows <==> r in sorted {
      assert r in rows <==> r in multiset(rows);
      assert r in sorted <==> r in multiset(sorted);
    }
    hide LatestUnit;
    if LatestUnit(sorted).Some? {
      var i :| 0 <= i < |sorted| && sorted[i].check.unit == LatestUnit(sorted)
               && forall j :: i < j < |sorted| ==> sorted[j].check.unit.None?;
      forall n | n in rows && n.check.unit.Some? ensures n.collectedAt <= sorted[i].collectedAt {
        var k :| 0 <= k < |sorted| && sorted[k] == n;
        assert k <= i;
        assert k < i ==> OldestFirst()(sorted[k], sorted[i]);
      }
      assert HasNewestUnit(rows, sorted[i]);
    }
  }

  /** No row with a unit was collected later. */
  ghost predicate HasNewestUnit(rows: seq<CheckRow>, r: CheckRow) {
    r in rows && forall n :: n in rows && n.check.unit.Some? ==> n.collectedAt <= r.collectedAt
  }

  /** A history's unit is that of the most recent row of its key in the window that has one. */
  lemma HistoryUnitIsMostRecent(db: Db, key: CheckKey, from: Time, to: Time)
    ensures var unit := HistoryOf(db, key, from, to).unit;
      (unit.None? <==> forall r :: r in db.checks && InHistory(r, key, from, to) ==> r.check.unit.None?)
      && (unit.Some? ==>
            exists r :: r in db.checks && InHistory(r, key, from, to) && r.check.unit == unit
                        && forall n :: n in db.checks && InHistory(n, key, from, to) && n.check.unit.Some? ==>
                             n.collectedAt <= r.collectedAt)
  {
    var rows := Filter(db.checks, ForKey(key, from, to));
    forall r ensures r in rows <==> r in db.checks && InHistory(r, key, from, to) {
      FilterMember(db.checks, ForKey(key, from, to), r);
    }
    hide Filter, Sort;
    assert TotalOrder(OldestFirst());
    SortOrdered(rows, OldestFirst());
    OrderedUnitIsMostRecent(rows, Sort(rows, OldestFirst()));
    var unit := HistoryOf(db, key, from, to).unit;
    if unit.Some? {
      var r :| HasNewestUnit(rows, r) && r.check.unit == unit;
      assert r in db.checks && InHistory(r, key, from, to);
    }
  }
}
