/** Retirements, retention and late reports: what the views do not forget and do not notice. */
module Overlays {
  import opened ReportTypes
  import opened Sequences
  import opened Staleness
  import opened Tables
  import opened Views
  import opened Runs
  import opened Summaries
  import opened Agreement
  import Text

  // ---- retirements ---------------------------------------------------------------------------

  ghost predicate InReturned(db: Db, who: Producer, now: Time) {
    exists t :: t in ProblemsAt(db, now).returned && t.producer == who
  }

  ghost predicate InStale(db: Db, who: Producer, now: Time) {
    exists t :: t in ProblemsAt(db, now).stale && t.producer == who
  }

  /** Reporting again after being declared finished. */
  predicate HasReturned(db: Db, who: Producer) {
    who in db.latest && who in db.retirements && db.latest[who].collectedAt > db.retirements[who].retiredAt
  }

  /** A producer's tile carries its pointer's own time. */
  lemma NewestTile(ops: seq<Op>, who: Producer, now: Time) returns (t: Tile)
    requires who in State(ops).latest
    ensures State(ops).latest[who].reportId in State(ops).reports
    ensures t == TileFor(State(ops), State(ops).latest[who].reportId, now) && t in OverviewAt(State(ops), now)
    ensures t.producer == who && t.collectedAt == State(ops).latest[who].collectedAt
  {
    PointerIsTheWindow(ops);
    assert PointsAtGreatest(State(ops), who);
    t := TileFor(State(ops), State(ops).latest[who].reportId, now);
    OverviewTiles(ops, now, t);
  }

  lemma OnlyNewestTiles(ops: seq<Op>, now: Time, t: Tile)
    requires t in OverviewAt(State(ops), now)
    ensures t.producer in State(ops).latest
    ensures State(ops).latest[t.producer].reportId in State(ops).reports
    ensures t == TileFor(State(ops), State(ops).latest[t.producer].reportId, now)
  {
    OverviewTiles(ops, now, t);
  }

  /** `returned` lists exactly the retired producers whose newest report was collected after
      the retirement. */
  lemma ReturnedExactly(ops: seq<Op>, who: Producer, now: Time)
    ensures InReturned(State(ops), who, now) <==> HasReturned(State(ops), who)
  {
    var db := State(ops);
    var keep := ReturnedIn(db.retirements);
    if InReturned(db, who, now) {
      var t :| t in ProblemsAt(db, now).returned && t.producer == who;
      FilterMember(OverviewAt(db, now), keep, t);
      OnlyNewestTiles(ops, now, t);
      var t' := NewestTile(ops, who, now);
    }
    if HasReturned(db, who) {
      var t := NewestTile(ops, who, now);
      FilterMember(OverviewAt(db, now), keep, t);
      assert t in ProblemsAt(db, now).returned;
    }
  }

  /** And `stale` exactly the unretired ones whose newest report is not fresh. */
  lemma StaleExactly(ops: seq<Op>, who: Producer, now: Time)
    ensures InStale(State(ops), who, now) <==>
      who in State(ops).latest && who !in State(ops).retirements
      && State(ops).latest[who].reportId in State(ops).reports
      && TileFor(State(ops), State(ops).latest[who].reportId, now).freshness != Fresh
  {
    var db := State(ops);
    var keep := StaleIn(db.retirements);
    if InStale(db, who, now) {
      var t :| t in ProblemsAt(db, now).stale && t.producer == who;
      FilterMember(OverviewAt(db, now), keep, t);
      OnlyNewestTiles(ops, now, t);
    }
    if who in db.latest && who !in db.retirements {
      var t := NewestTile(ops, who, now);
      FilterMember(OverviewAt(db, now), keep, t);
      assert t in ProblemsAt(db, now).stale <==> t.freshness != Fresh;
    }
  }

  /** The operation declares `who` finished: the key trimmed, and nothing blank. */
  ghost predicate Retires(op: Op, who: Producer) {
    && op.Retire?
    && who == Producer(Text.Trim(op.retirement.source), Text.Trim(op.retirement.collector))
    && Text.Trim(op.retirement.source) != "" && Text.Trim(op.retirement.collector) != ""
    && Text.Trim(op.retirement.reason) != ""
  }

  /** The operations from the `s`th on are those after the producer was last un-retired. */
  ghost predicate SinceUnretired(ops: seq<Op>, who: Producer, s: nat) {
    && s <= |ops| && (s == 0 || ops[s - 1] == Unretire(who))
    && forall n :: s <= n < |ops| ==> ops[n] != Unretire(who)
  }

  /** Since then, the `first`th operation was the first to retire the producer and the `last`th the
      last: the one dates the retirement, the other gives its reason and its author. */
  ghost predicate RetiredBy(ops: seq<Op>, who: Producer, s: nat, first: nat, last: nat, r: Retirement) {
    && s <= first <= last < |ops| && Retires(ops[first], who) && Retires(ops[last], who)
    && (forall n :: s <= n < first ==> !Retires(ops[n], who))
    && (forall n :: last < n < |ops| ==> !Retires(ops[n], who))
    && r == Retirement(Text.Trim(ops[last].retirement.reason), ops[last].creator, ops[first].at)
  }

  lemma RetiresExactly(op: Op, who: Producer)
    ensures Retires(op, who) <==>
      op.Retire? && RetirementAcceptable(op.retirement) && RetirementKey(op.retirement) == who
  {
    hide Text.Trim;
  }

  lemma RetirementStep(db: Db, op: Op, who: Producer)
    ensures var db' := Apply(db, op);
      if Retires(op, who) then
        who in db'.retirements
        && db'.retirements[who] == Retirement(Text.Trim(op.retirement.reason), op.creator,
                                              if who in db.retirements then db.retirements[who].retiredAt else op.at)
      else if op == Unretire(who) then who !in db'.retirements
      else (who in db'.retirements <==> who in db.retirements)
           && (who in db.retirements ==> db'.retirements[who] == db.retirements[who])
  {
    RetiresExactly(op, who);
    hide Retires, RetirementAcceptable, Text.Trim;
  }

  /** The retirements after a run: a producer has one exactly when an operation has retired it since
      it was last un-retired, and restating it changes the reason and the author but not the time. */
  lemma {:induction false} RetirementsExactly(ops: seq<Op>, who: Producer, s: nat)
    returns (first: nat, last: nat)
    requires SinceUnretired(ops, who, s)
    ensures who in State(ops).retirements <==> exists n :: s <= n < |ops| && Retires(ops[n], who)
    ensures who in State(ops).retirements ==> RetiredBy(ops, who, s, first, last, State(ops).retirements[who])
    decreases |ops|
  {
    hide Retires;
    first, last := 0, 0;
    if ops != [] {
      var init, op := ops[..|ops| - 1], Last(ops);
      assert ops == init + [op];
      RetirementStep(State(init), op, who);
      if s < |ops| {
        first, last := RetirementsExactly(init, who, s);
        if Retires(op, who) {
          first, last := if who in State(init).retirements then first else |init|, |init|;
        }
      } else {
        NoRetirement(op, who);
      }
    }
  }

  lemma NoRetirement(op: Op, who: Producer)
    requires op == Unretire(who)
    ensures !Retires(op, who)
  {
  }

  /** One step cannot take a producer back out. */
  lemma ReturnOutlivesStep(ops: seq<Op>, op: Op, who: Producer)
    requires HasReturned(State(ops), who) && op != Unretire(who)
    ensures HasReturned(Apply(State(ops), op), who)
  {
    if op.Rebuild? {
      RebuildIsIdle(ops);
    }
  }

  lemma {:induction false} ReturnOutlivesRun(ops: seq<Op>, later: seq<Op>, who: Producer)
    requires HasReturned(State(ops), who) && Unretire(who) !in later
    ensures HasReturned(State(ops + later), who)
    decreases |later|
  {
    if later == [] {
      assert ops + later == ops;
    } else {
      var init := later[..|later| - 1];
      ReturnOutlivesRun(ops, init, who);
      assert (ops + later)[..|ops + later| - 1] == ops + init;
      assert Last(ops + later) == Last(later);
      assert Last(later) in later;
      ReturnOutlivesStep(ops + init, Last(later), who);
    }
  }

  /** A return cannot be forgiven: once listed, a producer stays listed through any later
      operations and at any later reading, until it is un-retired. */
  lemma ReturnIsNeverForgiven(ops: seq<Op>, later: seq<Op>, who: Producer, seen: Time, now: Time)
    requires InReturned(State(ops), who, seen) && Unretire(who) !in later
    ensures InReturned(State(ops + later), who, now)
  {
    ReturnedExactly(ops, who, seen);
    ReturnOutlivesRun(ops, later, who);
    ReturnedExactly(ops + later, who, now);
  }

  // ---- retention ------------------------------------------------------------------------------

  /** A sweep keeps every fact but the bodies and the old check rows. */
  lemma SweepKeepsFacts(db: Db, raw: Time, cutoff: Time)
    ensures var db' := AfterSweep(db, raw, cutoff);
      db'.reports.Keys == db.reports.Keys
      && (forall id :: id in db.reports ==> db'.reports[id].(raw := None) == db.reports[id].(raw := None))
      && db'.latest == db.latest && db'.since == db.since
      && db'.mutes == db.mutes && db'.retirements == db.retirements
      && multiset(db'.checks) <= multiset(db.checks)
  {
    SweepTakesExactly(db, raw, cutoff);
  }

  /** What it takes are the bodies received before the one cutoff and the check rows collected
      before the other, all of them. */
  lemma SweepTakesExactly(db: Db, raw: Time, cutoff: Time)
    ensures var db' := AfterSweep(db, raw, cutoff);
      (forall id :: id in db.reports ==>
         id in db'.reports
         && db'.reports[id].raw == if db.reports[id].receivedAt < raw then None else db.reports[id].raw)
      && (forall c :: multiset(db'.checks)[c] == if c.collectedAt < cutoff then 0 else multiset(db.checks)[c])
  {
    forall c
      ensures multiset(AfterSweep(db, raw, cutoff).checks)[c]
           == if c.collectedAt < cutoff then 0 else multiset(db.checks)[c]
    {
      FilterMultiplicity(db.checks, CollectedFrom(cutoff), c);
    }
  }

  /** A history window that starts at or after the cutoff reads the same before and after. */
  lemma SweepKeepsHistory(db: Db, raw: Time, cutoff: Time, key: CheckKey, from: Time, to: Time)
    requires from >= cutoff
    ensures HistoryOf(AfterSweep(db, raw, cutoff), key, from, to) == HistoryOf(db, key, from, to)
  {
    FilterFilter(db.checks, CollectedFrom(cutoff), ForKey(key, from, to));
  }

  /** Sweeping twice with cutoffs that do not go back is sweeping once with the later ones. */
  lemma SweepsCompose(db: Db, raw: Time, cutoff: Time, raw': Time, cutoff': Time)
    requires raw <= raw' && cutoff <= cutoff'
    ensures AfterSweep(AfterSweep(db, raw, cutoff), raw', cutoff') == AfterSweep(db, raw', cutoff')
  {
    FilterFilter(db.checks, CollectedFrom(cutoff), CollectedFrom(cutoff'));
    var once, twice := AfterSweep(db, raw', cutoff'), AfterSweep(AfterSweep(db, raw, cutoff), raw', cutoff');
    assert once.reports == twice.reports;
  }

  lemma SweepKeepsTile(db: Db, a: Arrival, raw: Time, cutoff: Time, now: Time)
    requires Stored(db.reports, a) && a.upload.collectedAt >= cutoff
    requires RowsOf(db, a.upload.id) == CheckRowsOf(a) || RowsOf(db, a.upload.id) == []
    ensures TileFor(AfterSweep(db, raw, cutoff), a.upload.id, now) == TileFor(db, a.upload.id, now)
  {
    SweepTakesAllOrNone(db, a, raw, cutoff);
    var id, db' := a.upload.id, AfterSweep(db, raw, cutoff);
    assert db'.reports[id].(raw := None) == db.reports[id].(raw := None) && db'.mutes == db.mutes;
    assert RowsOf(db', id) == RowsOf(db, id);
  }

  /** The tile of a report collected since the cutoff does not change either. */
  lemma SweepKeepsRecentTile(ops: seq<Op>, raw: Time, cutoff: Time, id: string, now: Time)
    requires id in State(ops).reports && State(ops).reports[id].collectedAt >= cutoff
    ensures TileFor(AfterSweep(State(ops), raw, cutoff), id, now) == TileFor(State(ops), id, now)
  {
    Reachable(ops);
    var acc := Accepted(ops);
    var i :| 0 <= i < |acc| && acc[i].upload.id == id;
    assert Stored(State(ops).reports, acc[i]);
    SweepKeepsTile(State(ops), acc[i], raw, cutoff, now);
  }

  // ---- late reports -----------------------------------------------------------------------------

  lemma PointedAreStored(ops: seq<Op>, who: Producer)
    requires who in State(ops).latest
    ensures State(ops).latest[who].reportId in State(ops).reports
  {
    PointerIsTheWindow(ops);
    assert PointsAtGreatest(State(ops), who);
  }

  lemma {:induction false} TilesUnmoved(db: Db, db': Db, order: seq<Producer>, now: Time)
    requires db'.latest == db.latest
    requires forall p :: p in order ==> p in db.latest
    requires forall p :: p in order ==> TileRow(db', db.latest[p], now) == TileRow(db, db.latest[p], now)
    ensures TilesFor(db', order, now) == TilesFor(db, order, now)
  {
    if order != [] {
      TilesUnmoved(db, db', order[..|order| - 1], now);
    }
  }

  /** A fresh report that is not newer than its producer's pointer. */
  ghost predicate Late(db: Db, a: Arrival) {
    Valid(a) && a.upload.id !in db.reports && a.From() in db.latest && !Newer(a.Stamp(), db.latest[a.From()])
    && forall who :: who in db.latest ==> db.latest[who].reportId in db.reports
  }

  lemma LateReportMovesNothing(db: Db, a: Arrival)
    requires Late(db, a)
    ensures var db' := AfterIngest(db, a);
      db'.latest == db.latest && db'.since == db.since && db'.mutes == db.mutes && db'.retirements == db.retirements
      && db'.reports == db.reports[a.upload.id := RowOf(a)] && db'.checks == db.checks + CheckRowsOf(a)
  {
  }

  lemma LateReportKeepsTile(db: Db, a: Arrival, p: Pointer, now: Time)
    requires Valid(a) && a.upload.id !in db.reports && p.reportId in db.reports
    ensures TileRow(AfterIngest(db, a), p, now) == TileRow(db, p, now)
  {
    RowsAfterIngest(db, a, p.reportId);
    var db' := AfterIngest(db, a);
    assert db'.reports[p.reportId] == db.reports[p.reportId] && db'.mutes == db.mutes;
    assert RowsOf(db', p.reportId) == RowsOf(db, p.reportId);
  }

  lemma LateReportKeepsOverview(db: Db, a: Arrival, now: Time)
    requires Late(db, a)
    ensures OverviewAt(AfterIngest(db, a), now) == OverviewAt(db, now)
  {
    var db' := AfterIngest(db, a);
    LateReportMovesNothing(db, a);
    forall p | p in db.latest ensures TileRow(db', db.latest[p], now) == TileRow(db, db.latest[p], now) {
      LateReportKeepsTile(db, a, db.latest[p], now);
    }
    TilesUnmoved(db, db', SortedProducers(db.latest.Keys), now);
  }

  lemma LateReportKeepsRows(db: Db, a: Arrival)
    requires Late(db, a)
    ensures ProblemRows(AfterIngest(db, a)) == ProblemRows(db)
  {
    LateReportMovesNothing(db, a);
    var bad := CurrentBad(db.latest);
    FilterAppend(db.checks, CheckRowsOf(a), bad);
    forall c | c in CheckRowsOf(a) ensures !bad(c) {
      assert c.reportId == a.upload.id;
    }
    FilterNone(CheckRowsOf(a), bad);
    assert Filter(db.checks, bad) + [] == Filter(db.checks, bad);
  }

  /** The problems view reads nothing but these. */
  lemma ProblemsRead(db: Db, db': Db, now: Time)
    requires ProblemRows(db') == ProblemRows(db) && OverviewAt(db', now) == OverviewAt(db, now)
    requires db'.since == db.since && db'.mutes == db.mutes && db'.retirements == db.retirements
    ensures ProblemsAt(db', now) == ProblemsAt(db, now)
  {
    assert ListMutes(db', now) == ListMutes(db, now);
  }

  /** A report that does not take its producer's pointer changes neither view, at any instant. */
  lemma LateReportIsInvisible(ops: seq<Op>, a: Arrival, now: Time)
    requires var db := State(ops);
      Valid(a) && a.upload.id !in db.reports && a.From() in db.latest && !Newer(a.Stamp(), db.latest[a.From()])
    ensures OverviewAt(AfterIngest(State(ops), a), now) == OverviewAt(State(ops), now)
    ensures ProblemsAt(AfterIngest(State(ops), a), now) == ProblemsAt(State(ops), now)
  {
    var db := State(ops);
    forall who | who in db.latest ensures db.latest[who].reportId in db.reports {
      PointedAreStored(ops, who);
    }
    LateReportMovesNothing(db, a);
    LateReportKeepsOverview(db, a, now);
    LateReportKeepsRows(db, a);
    ProblemsRead(db, AfterIngest(db, a), now);
  }

  // ---- freshness on the tile ----------------------------------------------------------------------

  /** A stored report keeps its time and its declared interval through any later operations. */
  lemma StoredStays(ops: seq<Op>, later: seq<Op>, id: string)
    requires id in State(ops).reports
    ensures id in State(ops + later).reports
    ensures var r, r' := State(ops).reports[id], State(ops + later).reports[id];
      r'.producer == r.producer && r'.collectedAt == r.collectedAt && r'.intervalS == r.intervalS
  {
    hide State, Accepted, SinceMatches, LatestMatches, ChecksMatch;
    Reachable(ops);
    var acc := Accepted(ops);
    var i :| 0 <= i < |acc| && acc[i].upload.id == id;
    assert (ops + later)[..|ops|] == ops;
    AcceptedGrows(ops + later, |ops|);
    assert Accepted(ops + later)[i] == acc[i];
    StoredReportIsFaithful(ops, acc[i]);
    StoredReportIsFaithful(ops + later, acc[i]);
  }

  /** While a producer's newest report stays the same, its tile only degrades as the clock
      advances, whatever else is done to the tables meanwhile. */
  lemma TileOnlyDegrades(ops: seq<Op>, later: seq<Op>, t: Tile, t': Tile, now: Time, now': Time)
    requires t in OverviewAt(State(ops), now) && t' in OverviewAt(State(ops + later), now')
    requires t.reportId == t'.reportId && now <= now' && SaneAge(t.ageS) && SaneAge(t'.ageS)
    ensures Rank(t.freshness) <= Rank(t'.freshness)
  {
    TileReads(ops, now, t);
    TileReads(ops + later, now', t');
    StoredStays(ops, later, t.reportId);
    AgeGrows(now, now', t.collectedAt, t.collectedAt);
    OnlyDegradesWithAge(t.ageS, t'.ageS, t.intervalS);
  }

  /** What a tile says of the report it shows. */
  lemma TileReads(ops: seq<Op>, now: Time, t: Tile)
    requires t in OverviewAt(State(ops), now)
    ensures t.reportId in State(ops).reports
    ensures var r := State(ops).reports[t.reportId];
      t.collectedAt == r.collectedAt && t.intervalS == r.intervalS && t.producer == r.producer
    ensures t.ageS == AgeSeconds(now, t.collectedAt) && t.freshness == FreshnessOf(t.ageS, t.intervalS)
    ensures RanksFirst(State(ops).reports, t.reportId)
  {
    OnlyNewestTiles(ops, now, t);
    PointerIsTheWindow(ops);
    assert PointsAtGreatest(State(ops), t.producer);
  }

  /** A tile shows the age of its report in whole seconds, toward zero. */
  lemma TileAgeExactly(ops: seq<Op>, now: Time, t: Tile)
    requires t in OverviewAt(State(ops), now)
    ensures t.collectedAt <= now ==> 1000 * t.ageS <= now - t.collectedAt < 1000 * (t.ageS + 1)
    ensures now <= t.collectedAt ==> 1000 * -t.ageS <= t.collectedAt - now < 1000 * (1 - t.ageS)
  {
    TileReads(ops, now, t);
    AgeExactly(now, t.collectedAt);
  }

  /** Within the bounds the integers allow, the milliseconds since a tile's collection and the
      cadence its report declared say how fresh it is. */
  lemma TileFreshnessExactly(ops: seq<Op>, now: Time, t: Tile)
    requires t in OverviewAt(State(ops), now)
    requires -0x4000_0000_0000_0000 * 1000 <= now - t.collectedAt < 0x4000_0000_0000_0000 * 1000
    requires t.intervalS.Some? ==> t.intervalS.value <= 0x7FFF_FFFF_FFFF_FFFF / 3
    ensures var d := Declared(t.intervalS);
      (t.freshness == Fresh <==> now - t.collectedAt < 1000 * (3 * d / 2 + 1))
      && (t.freshness == Silent <==> now - t.collectedAt >= 1000 * (3 * d + 1))
  {
    TileReads(ops, now, t);
    FreshnessInMilliseconds(now, t.collectedAt, t.intervalS);
  }

  /** So an unretired producer is in `stale` exactly when one and a half cadences have passed, to the
      second, since its newest report. */
  lemma StaleInMilliseconds(ops: seq<Op>, now: Time, who: Producer)
    requires who in State(ops).latest && who !in State(ops).retirements
    requires var age := now - State(ops).latest[who].collectedAt;
      -0x4000_0000_0000_0000 * 1000 <= age < 0x4000_0000_0000_0000 * 1000
    ensures State(ops).latest[who].reportId in State(ops).reports
    ensures var db := State(ops); var declared := db.reports[db.latest[who].reportId].intervalS;
      (declared.Some? ==> declared.value <= 0x7FFF_FFFF_FFFF_FFFF / 3) ==>
        (InStale(db, who, now) <==> now - db.latest[who].collectedAt >= 1000 * (3 * Declared(declared) / 2 + 1))
  {
    hide State;
    var t := NewestTile(ops, who, now);
    TileReads(ops, now, t);
    StaleExactly(ops, who, now);
    if t.intervalS.Some? ==> t.intervalS.value <= 0x7FFF_FFFF_FFFF_FFFF / 3 {
      TileFreshnessExactly(ops, now, t);
    }
  }

  /** And whatever arrives meanwhile, at one instant a tile that still declares the same interval
      is never staler than before: the pointer only moves to later collections. */
  lemma NewerReportIsNoStaler(ops: seq<Op>, later: seq<Op>, t: Tile, t': Tile, now: Time)
    requires t in OverviewAt(State(ops), now) && t' in OverviewAt(State(ops + later), now)
    requires t.producer == t'.producer && t.intervalS == t'.intervalS && SaneAge(t.ageS) && SaneAge(t'.ageS)
    ensures t.collectedAt <= t'.collectedAt
    ensures Rank(t'.freshness) <= Rank(t.freshness)
  {
    TileReads(ops, now, t);
    TileReads(ops + later, now, t');
    StoredStays(ops, later, t.reportId);
    AgeGrows(now, now, t.collectedAt, t'.collectedAt);
    OnlyDegradesWithAge(t'.ageS, t.ageS, t.intervalS);
  }
}
