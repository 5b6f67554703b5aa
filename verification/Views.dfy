/** The two read views as functions of the tables and one instant. */
module Views {
  import opened ReportTypes
  import opened Sequences
  import opened Tables
  import Text

  // ---- ORDER BY source, collector -------------------------------------------------------

  lemma ProducerBelowTotal(p: Producer, q: Producer)
    ensures p == q || ProducerBelow(p, q) || ProducerBelow(q, p)
  {
    Text.BelowTotal(p.source, q.source);
    Text.BelowTotal(p.collector, q.collector);
  }

  lemma ProducerBelowAsymmetric(p: Producer, q: Producer)
    ensures !(ProducerBelow(p, q) && ProducerBelow(q, p))
  {
    Text.BelowAsymmetric(p.source, q.source);
    Text.BelowAsymmetric(p.collector, q.collector);
    Text.BelowIrreflexive(p.source);
  }

  lemma ProducerBelowTransitive(p: Producer, q: Producer, r: Producer)
    requires ProducerBelow(p, q) && ProducerBelow(q, r)
    ensures ProducerBelow(p, r)
  {
    if Text.Below(p.source, q.source) && Text.Below(q.source, r.source) {
      Text.BelowTransitive(p.source, q.source, r.source);
    } else if p.source == q.source == r.source {
      Text.BelowTransitive(p.collector, q.collector, r.collector);
    }
  }

  predicate IsLeast(ps: set<Producer>, p: Producer) {
    p in ps && forall q :: q in ps && q != p ==> ProducerBelow(p, q)
  }

  lemma LeastExists(ps: set<Producer>) returns (p: Producer)
    requires ps != {}
    ensures IsLeast(ps, p)
  {
    var some :| some in ps;
    p := some;
    if ps != {some} {
      var q := LeastExists(ps - {some});
      ProducerBelowTotal(some, q);
      p := if ProducerBelow(some, q) then some else q;
      forall r | r in ps && r != p ensures ProducerBelow(p, r) {
        if p == some && r != q {
          ProducerBelowTransitive(some, q, r);
        }
      }
    }
  }

  lemma LeastUnique(ps: set<Producer>)
    ensures forall p, q :: IsLeast(ps, p) && IsLeast(ps, q) ==> p == q
  {
    forall p, q | IsLeast(ps, p) && IsLeast(ps, q) ensures p == q {
      ProducerBelowAsymmetric(p, q);
    }
  }

  lemma SomeLeast(ps: set<Producer>)
    requires ps != {}
    ensures exists p :: IsLeast(ps, p)
  {
    var p := LeastExists(ps);
  }

  function Least(ps: set<Producer>): (p: Producer)
    requires ps != {}
    ensures IsLeast(ps, p)
  {
    SomeLeast(ps);
    LeastUnique(ps);
    var p :| p in ps && IsLeast(ps, p);
    p
  }

  /** The producers in order, each once. */
  function SortedProducers(ps: set<Producer>): (order: seq<Producer>)
    ensures |order| == |ps|
    ensures forall p :: p in order <==> p in ps
    ensures forall i, j :: 0 <= i < j < |order| ==> ProducerBelow(order[i], order[j])
    decreases |ps|
  {
    if ps == {} then [] else
      var p := Least(ps);
      [p] + SortedProducers(ps - {p})
  }

  // ---- the views ------------------------------------------------------------------------

  /** One row of the join, which drops a pointer to no report. */
  function TileRow(db: Db, p: Pointer, now: Time): seq<Tile> {
    if p.reportId in db.reports then [TileFor(db, p.reportId, now)] else []
  }

  /** The tiles of the listed producers. */
  function TilesFor(db: Db, order: seq<Producer>, now: Time): seq<Tile>
    requires forall p :: p in order ==> p in db.latest
  {
    if order == [] then [] else
      TilesFor(db, order[..|order| - 1], now) + TileRow(db, db.latest[Last(order)], now)
  }

  lemma TilesForSnoc(db: Db, order: seq<Producer>, p: Producer, now: Time)
    requires p in db.latest && forall q :: q in order ==> q in db.latest
    ensures TilesFor(db, order + [p], now) == TilesFor(db, order, now) + TileRow(db, db.latest[p], now)
  {
    assert (order + [p])[..|order|] == order;
  }

  function OverviewAt(db: Db, now: Time): seq<Tile> {
    TilesFor(db, SortedProducers(db.latest.Keys), now)
  }

  /** The muted rows, each with the mute that silences it. */
  function MutedChecks(rows: seq<CheckRow>, live: seq<Mute>): seq<MutedCheck> {
    var silenced := Filter(rows, Muted(live));
    seq(|silenced|, i requires 0 <= i < |silenced| =>
      FilterMember(rows, Muted(live), silenced[i]);
      MutedCheckOf(silenced[i], BestMute(live, silenced[i].Key()).value))
  }

  lemma MutedChecksSnoc(rows: seq<CheckRow>, c: CheckRow, live: seq<Mute>)
    ensures MutedChecks(rows + [c], live)
         == MutedChecks(rows, live)
            + (if BestMute(live, c.Key()).Some? then [MutedCheckOf(c, BestMute(live, c.Key()).value)] else [])
  {
    FilterSnoc(rows, c, Muted(live));
  }

  function ProblemsAt(db: Db, now: Time): ProblemsView {
    var rows := ProblemRows(db);
    var live := ListMutes(db, now);
    var tiles := OverviewAt(db, now);
    ProblemsView(
      Map(Filter(rows, Unmuted(live)), ToProblem(db.since)),
      MutedChecks(rows, live),
      Filter(tiles, StaleIn(db.retirements)),
      Filter(live, LapsingAt(now)),
      Filter(tiles, ReturnedIn(db.retirements)))
  }
}
