/** The two views count the same things: a tile against its producer's rows in the problems
    view, and both against the producer's newest upload. */
module Agreement {
  import opened ReportTypes
  import opened Sequences
  import opened Tables
  import opened Views
  import opened Runs
  import opened Summaries
  import opened Silence

  function RowVerdict(v: Verdict): CheckRow -> bool {
    (c: CheckRow) => c.check.verdict == v
  }

  function RowIs(who: Producer, v: Verdict): CheckRow -> bool {
    (c: CheckRow) => c.producer == who && c.check.verdict == v
  }

  function ProblemIs(who: Producer, v: Verdict): ProblemCheck -> bool {
    (p: ProblemCheck) => p.producer == who && p.verdict == v
  }

  function MutedIs(who: Producer, v: Verdict): MutedCheck -> bool {
    (p: MutedCheck) => p.producer == who && p.verdict == v
  }

  function MutedFor(who: Producer): MutedCheck -> bool {
    (p: MutedCheck) => p.producer == who
  }

  // ---- tiles ------------------------------------------------------------------------------

  lemma {:induction false} TilesForMember(db: Db, order: seq<Producer>, now: Time, t: Tile)
    requires forall p :: p in order ==> p in db.latest
    ensures t in TilesFor(db, order, now) <==>
      exists p :: p in order && db.latest[p].reportId in db.reports && t == TileFor(db, db.latest[p].reportId, now)
  {
    if order != [] {
      TilesForMember(db, order[..|order| - 1], now, t);
      assert order == order[..|order| - 1] + [Last(order)];
    }
  }

  /** In a reachable state the overview holds one tile per producer, its newest report's. */
  lemma OverviewTiles(ops: seq<Op>, now: Time, t: Tile)
    ensures var db := State(ops);
      t in OverviewAt(db, now) <==>
        t.producer in db.latest && db.latest[t.producer].reportId in db.reports
        && t == TileFor(db, db.latest[t.producer].reportId, now)
  {
    var db := State(ops);
    PointerIsTheWindow(ops);
    TilesForMember(db, SortedProducers(db.latest.Keys), now, t);
    forall p | p in db.latest
      ensures db.latest[p].reportId in db.reports && TileFor(db, db.latest[p].reportId, now).producer == p
    {
      assert PointsAtGreatest(db, p);
    }
  }

  // ---- counting rows of one report ----------------------------------------------------------

  lemma UploadCounts(a: Arrival, v: Verdict)
    ensures |Filter(CheckRowsOf(a), RowVerdict(v))| == CountOf(a.upload.checks, v)
  {
    var toCheck := (c: CheckRow) => c.check;
    assert Map(CheckRowsOf(a), toCheck) == a.upload.checks;
    FilterMapCount(CheckRowsOf(a), toCheck, HasVerdict(v), RowVerdict(v));
  }

  lemma {:induction false} CountsCover(checks: seq<Check>)
    ensures CountOf(checks, Pass) + CountOf(checks, Warn) + CountOf(checks, Fail) + CountOf(checks, Skip) == |checks|
  {
    if checks != [] {
      CountsCover(checks[..|checks| - 1]);
    }
  }

  /** A report's rows of one verdict are its open ones and its muted ones. */
  lemma OpenPlusMuted(rows: seq<CheckRow>, v: Verdict, live: seq<Mute>)
    ensures |Filter(rows, Both(RowVerdict(v), Unmuted(live)))| + |Filter(rows, Both(RowVerdict(v), Muted(live)))|
         == |Filter(rows, RowVerdict(v))|
  {
    FilterBoth(rows, RowVerdict(v), Unmuted(live));
    FilterBoth(rows, RowVerdict(v), Muted(live));
    FilterSplit(Filter(rows, RowVerdict(v)), Unmuted(live), Muted(live));
  }

  /** No identity has two live mutes. */
  ghost predicate AtMostOneLive(mutes: seq<Mute>, now: Time) {
    forall k: Identity :: |Filter(mutes, Silencing(k, now))| <= 1
  }

  lemma SilencedIffListed(db: Db, now: Time, k: Identity)
    ensures BestMute(ListMutes(db, now), k).Some? <==> |Filter(db.mutes, Silencing(k, now))| >= 1
  {
    OverlayMute(db, now, k);
    var hits := Filter(db.mutes, Silencing(k, now));
    if m :| m in db.mutes && Covers(m, k, now) {
      FilterMember(db.mutes, Silencing(k, now), m);
    }
    if |hits| >= 1 {
      FilterMember(db.mutes, Silencing(k, now), hits[0]);
    }
  }

  /** The join counts each muted row at least once, and once when mutes do not overlap. */
  lemma {:induction false} JoinCounts(db: Db, rows: seq<CheckRow>, v: Verdict, now: Time)
    ensures var n := |Filter(rows, Both(RowVerdict(v), Muted(ListMutes(db, now))))|;
      MutedCount(rows, db.mutes, v, now) >= n
      && (AtMostOneLive(db.mutes, now) ==> MutedCount(rows, db.mutes, v, now) == n)
  {
    if rows != [] {
      JoinCounts(db, rows[..|rows| - 1], v, now);
      SilencedIffListed(db, now, Last(rows).Key());
    }
  }

  // ---- counting rows of the problems view -----------------------------------------------------

  /** In a reachable state, the problem rows of a producer are the bad rows of its newest report. */
  lemma PointedRows(ops: seq<Op>, a: Arrival, c: CheckRow)
    requires IsNewest(State(ops), Accepted(ops), a) && c in State(ops).checks
    ensures Pointed(State(ops).latest, c.reportId) && c.producer == a.From() <==> c.reportId == a.upload.id
  {
    Reachable(ops);
    PointerIsTheWindow(ops);
    var db, acc := State(ops), Accepted(ops);
    RowProducer(db, acc, c);
    if Pointed(db.latest, c.reportId) {
      var who :| who in db.latest && db.latest[who].reportId == c.reportId;
      assert PointsAtGreatest(db, who);
    }
    if c.reportId == a.upload.id {
      assert PointsAtGreatest(db, a.From());
    }
  }

  /** A row's producer is its report's. */
  lemma RowProducer(db: Db, acc: seq<Arrival>, c: CheckRow)
    requires Inv(db, acc) && c in db.checks
    ensures c.reportId in db.reports && db.reports[c.reportId].producer == c.producer
  {
    var i :| 0 <= i < |acc| && acc[i].upload.id == c.reportId;
    FilterMember(db.checks, OfReport(c.reportId), c);
    assert c in CheckRowsOf(acc[i]);
    assert Stored(db.reports, acc[i]);
  }

  lemma CheckRowsOfOne(a: Arrival, c: CheckRow)
    requires c in CheckRowsOf(a)
    ensures c.producer == a.From() && c.reportId == a.upload.id
  {}

  /** A problem row belongs to its producer's newest report. */
  lemma RowOfNewest(db: Db, acc: seq<Arrival>, c: CheckRow) returns (a: Arrival)
    requires Inv(db, acc) && c in db.checks && Pointed(db.latest, c.reportId)
    ensures IsNewest(db, acc, a) && a.From() == c.producer && c in CheckRowsOf(a)
  {
    hide Records, Of, CheckRowsOf, SinceMatches;
    var i :| 0 <= i < |acc| && acc[i].upload.id == c.reportId;
    a := acc[i];
    FilterMember(db.checks, OfReport(c.reportId), c);
    assert c in RowsOf(db, a.upload.id);
    assert c in CheckRowsOf(a);
    CheckRowsOfOne(a, c);
    var who :| who in db.latest && db.latest[who].reportId == c.reportId;
    var b := NewestExists(db, acc, who);
    var j :| 0 <= j < |acc| && acc[j] == b;
    assert i == j;
  }

  lemma {:induction false} MutedChecksCount(rows: seq<CheckRow>, live: seq<Mute>, keep: MutedCheck -> bool,
                                           keep': CheckRow -> bool)
    requires forall c, m :: keep(MutedCheckOf(c, m)) == keep'(c)
    ensures |Filter(MutedChecks(rows, live), keep)| == |Filter(rows, Both(Muted(live), keep'))|
  {
    if rows == [] {
      assert MutedChecks(rows, live) == [];
    } else {
      var init, c := rows[..|rows| - 1], Last(rows);
      assert rows == init + [c];
      MutedChecksCount(init, live, keep, keep');
      MutedChecksSnoc(init, c, live);
      FilterSnoc(init, c, Both(Muted(live), keep'));
      if BestMute(live, c.Key()).Some? {
        var q := MutedCheckOf(c, BestMute(live, c.Key()).value);
        FilterSnoc(MutedChecks(init, live), q, keep);
        assert keep(q) == keep'(c);
      } else {
        assert MutedChecks(rows, live) == MutedChecks(init, live);
      }
    }
  }

  /** From the sorted join back to the rows of one report. */
  lemma RowsOfNewest(ops: seq<Op>, a: Arrival, pick: CheckRow -> bool, v: Verdict)
    requires IsNewest(State(ops), Accepted(ops), a) && v.Bad()
    ensures var db := State(ops);
      |Filter(ProblemRows(db), Both(pick, RowIs(a.From(), v)))|
      == |Filter(RowsOf(db, a.upload.id), Both(RowVerdict(v), pick))|
  {
    var db := State(ops);
    var bad := CurrentBad(db.latest);
    var mine := Both(pick, RowIs(a.From(), v));
    FilterPermutes(ProblemRows(db), Filter(db.checks, bad), mine);
    FilterBoth(db.checks, bad, mine);
    FilterBoth(db.checks, OfReport(a.upload.id), Both(RowVerdict(v), pick));
    forall c | c in db.checks
      ensures Both(bad, mine)(c) == Both(OfReport(a.upload.id), Both(RowVerdict(v), pick))(c)
    {
      PointedRows(ops, a, c);
    }
    FilterAgree(db.checks, Both(bad, mine), Both(OfReport(a.upload.id), Both(RowVerdict(v), pick)));
  }

  lemma ProblemCount(ops: seq<Op>, now: Time, a: Arrival, v: Verdict)
    requires IsNewest(State(ops), Accepted(ops), a) && v.Bad()
    ensures var db := State(ops); var live := ListMutes(db, now);
      |Filter(ProblemsAt(db, now).checks, ProblemIs(a.From(), v))|
      == |Filter(RowsOf(db, a.upload.id), Both(RowVerdict(v), Unmuted(live)))|
  {
    var db := State(ops);
    var rows, live := ProblemRows(db), ListMutes(db, now);
    FilterMapCount(Filter(rows, Unmuted(live)), ToProblem(db.since), ProblemIs(a.From(), v), RowIs(a.From(), v));
    FilterBoth(rows, Unmuted(live), RowIs(a.From(), v));
    RowsOfNewest(ops, a, Unmuted(live), v);
  }

  lemma MutedRowCount(ops: seq<Op>, now: Time, a: Arrival, v: Verdict)
    requires IsNewest(State(ops), Accepted(ops), a) && v.Bad()
    ensures var db := State(ops); var live := ListMutes(db, now);
      |Filter(ProblemsAt(db, now).muted, MutedIs(a.From(), v))|
      == |Filter(RowsOf(db, a.upload.id), Both(RowVerdict(v), Muted(live)))|
  {
    var db := State(ops);
    var rows, live := ProblemRows(db), ListMutes(db, now);
    MutedChecksCount(rows, live, MutedIs(a.From(), v), RowIs(a.From(), v));
    RowsOfNewest(ops, a, Muted(live), v);
  }

  /** Every muted row fails or warns. */
  lemma {:induction false} MutedAreBad(ms: seq<MutedCheck>, who: Producer)
    requires forall q :: q in ms ==> q.verdict.Bad()
    ensures |Filter(ms, MutedFor(who))| == |Filter(ms, MutedIs(who, Fail))| + |Filter(ms, MutedIs(who, Warn))|
  {
    if ms != [] {
      var init := ms[..|ms| - 1];
      assert ms == init + [Last(ms)];
      MutedAreBad(init, who);
    }
  }

  lemma MutedViewBad(db: Db, now: Time)
    ensures forall q :: q in ProblemsAt(db, now).muted ==> q.verdict.Bad()
  {
    forall q | q in ProblemsAt(db, now).muted ensures q.verdict.Bad() {
      ListedMuted(ProblemRows(db), ListMutes(db, now), q);
      var c :| c in ProblemRows(db) && BestMute(ListMutes(db, now), c.Key()).Some?
               && q == MutedCheckOf(c, BestMute(ListMutes(db, now), c.Key()).value);
      ProblemRowMember(db, c);
    }
  }

  // ---- the agreement --------------------------------------------------------------------------

  /** The producer's newest report still has its rows. */
  ghost predicate Unswept(db: Db, a: Arrival) {
    RowsOf(db, a.upload.id) == CheckRowsOf(a)
  }

  lemma TileOfNewest(ops: seq<Op>, now: Time, a: Arrival)
    requires IsNewest(State(ops), Accepted(ops), a)
    ensures a.upload.id in State(ops).reports
    ensures var r := State(ops).reports[a.upload.id];
      r.producer == a.From() && r.collectedAt == a.upload.collectedAt && r.intervalS == a.upload.intervalS
      && r.counts == CountsOf(a.upload.checks)
    ensures var t := TileFor(State(ops), a.upload.id, now); t.producer == a.From() && t in OverviewAt(State(ops), now)
  {
    Reachable(ops);
    var i :| 0 <= i < |Accepted(ops)| && Accepted(ops)[i] == a;
    assert Stored(State(ops).reports, Accepted(ops)[i]);
    OverviewTiles(ops, now, TileFor(State(ops), a.upload.id, now));
  }

  /** Rows of the join of a report's checks of one verdict with their live mutes. */
  function Joined(db: Db, a: Arrival, v: Verdict, now: Time): nat {
    MutedCount(RowsOf(db, a.upload.id), db.mutes, v, now)
  }

  lemma VerdictCounts(ops: seq<Op>, now: Time, a: Arrival, v: Verdict)
    requires IsNewest(State(ops), Accepted(ops), a) && Unswept(State(ops), a) && v.Bad()
    ensures var db := State(ops); var view := ProblemsAt(db, now);
      var open := |Filter(view.checks, ProblemIs(a.From(), v))|;
      var muted := |Filter(view.muted, MutedIs(a.From(), v))|;
      var joined := Joined(db, a, v, now);
      open + muted == CountOf(a.upload.checks, v) && joined >= muted
      && (AtMostOneLive(db.mutes, now) ==> joined == muted)
  {
    var db := State(ops);
    ProblemCount(ops, now, a, v);
    MutedRowCount(ops, now, a, v);
    OpenPlusMuted(RowsOf(db, a.upload.id), v, ListMutes(db, now));
    UploadCounts(a, v);
    JoinCounts(db, RowsOf(db, a.upload.id), v, now);
  }

  /** With at most one live mute per identity, a tile's counts are the producer's rows in the
      problems view, and the five counts make up the total. */
  lemma ViewsAgree(ops: seq<Op>, now: Time, a: Arrival)
    requires IsNewest(State(ops), Accepted(ops), a) && Unswept(State(ops), a)
    requires AtMostOneLive(State(ops).mutes, now)
    ensures a.upload.id in State(ops).reports
    ensures var t := TileFor(State(ops), a.upload.id, now); var view := ProblemsAt(State(ops), now);
      t in OverviewAt(State(ops), now)
      && t.fail == |Filter(view.checks, ProblemIs(a.From(), Fail))|
      && t.warn == |Filter(view.checks, ProblemIs(a.From(), Warn))|
      && t.muted == |Filter(view.muted, MutedFor(a.From()))|
      && t.pass == CountOf(a.upload.checks, Pass) && t.skip == CountOf(a.upload.checks, Skip)
      && t.pass + t.warn + t.fail + t.skip + t.muted == t.total == |a.upload.checks|
  {
    TileOfNewest(ops, now, a);
    VerdictCounts(ops, now, a, Fail);
    VerdictCounts(ops, now, a, Warn);
    MutedViewBad(State(ops), now);
    MutedAreBad(ProblemsAt(State(ops), now).muted, a.From());
    CountsCover(a.upload.checks);
  }

  /** Overlapping mutes can only make the tile show less than the problems view. */
  lemma TileNeverOvercounts(ops: seq<Op>, now: Time, a: Arrival)
    requires IsNewest(State(ops), Accepted(ops), a) && Unswept(State(ops), a)
    ensures a.upload.id in State(ops).reports
    ensures var t := TileFor(State(ops), a.upload.id, now); var view := ProblemsAt(State(ops), now);
      t.fail <= |Filter(view.checks, ProblemIs(a.From(), Fail))|
      && t.warn <= |Filter(view.checks, ProblemIs(a.From(), Warn))|
  {
    TileOfNewest(ops, now, a);
    VerdictCounts(ops, now, a, Fail);
    VerdictCounts(ops, now, a, Warn);
  }

  /** The row's identity is not covered by two live mutes. */
  ghost predicate OnceAtMost(db: Db, now: Time, v: Verdict, r: CheckRow) {
    r.check.verdict == v ==> |Filter(db.mutes, Silencing(r.Key(), now))| <= 1
  }

  /** The join overcounts exactly when two live mutes cover one row. */
  lemma {:induction false} JoinExact(db: Db, rows: seq<CheckRow>, v: Verdict, now: Time)
    ensures MutedCount(rows, db.mutes, v, now) == |Filter(rows, Both(RowVerdict(v), Muted(ListMutes(db, now))))| <==>
      forall r :: r in rows ==> OnceAtMost(db, now, v, r)
  {
    hide ListMutes, BestMute;
    if rows != [] {
      var init, r := rows[..|rows| - 1], Last(rows);
      assert rows == init + [r];
      JoinExact(db, init, v, now);
      JoinCounts(db, init, v, now);
      SilencedIffListed(db, now, r.Key());
      FilterSnoc(init, r, Both(RowVerdict(v), Muted(ListMutes(db, now))));
      assert (forall x :: x in rows ==> OnceAtMost(db, now, v, x))
        <==> (forall x :: x in init ==> OnceAtMost(db, now, v, x)) && OnceAtMost(db, now, v, r);
    }
  }

  /** Two live mutes cover one failing (or warning) check of the report. */
  ghost predicate DoublyMuted(db: Db, now: Time, a: Arrival, v: Verdict) {
    exists r :: r in CheckRowsOf(a) && !OnceAtMost(db, now, v, r)
  }

  /** A row and a live mute of its identity, both by position: a row of the join. */
  ghost predicate Pairs(rows: seq<CheckRow>, mutes: seq<Mute>, v: Verdict, now: Time, p: (int, int)) {
    0 <= p.0 < |rows| && 0 <= p.1 < |mutes|
    && rows[p.0].check.verdict == v
    && mutes[p.1].identity == Identity(rows[p.0].producer, rows[p.0].check.name) && mutes[p.1].expiresAt > now
  }

  ghost function PairSet(rows: seq<CheckRow>, mutes: seq<Mute>, v: Verdict, now: Time): set<(int, int)> {
    set i, j | 0 <= i < |rows| && 0 <= j < |mutes| && Pairs(rows, mutes, v, now, (i, j)) :: (i, j)
  }

  lemma PairSetSnoc(init: seq<CheckRow>, c: CheckRow, mutes: seq<Mute>, v: Verdict, now: Time)
    ensures var last := if c.check.verdict == v then Positions(|init|, mutes, Silencing(c.Key(), now)) else {};
      PairSet(init + [c], mutes, v, now) == PairSet(init, mutes, v, now) + last
      && PairSet(init, mutes, v, now) !! last
  {
    var rows := init + [c];
    assert rows[|init|] == c && forall i :: 0 <= i < |init| ==> rows[i] == init[i];
    var last := if c.check.verdict == v then Positions(|init|, mutes, Silencing(c.Key(), now)) else {};
    forall p: (int, int) ensures Pairs(rows, mutes, v, now, p) <==> Pairs(init, mutes, v, now, p) || p in last {
      assert p == (p.0, p.1);
    }
    forall p: (int, int) ensures p in PairSet(rows, mutes, v, now) <==> Pairs(rows, mutes, v, now, p) {
      assert p == (p.0, p.1);
    }
    forall p: (int, int) ensures p in PairSet(init, mutes, v, now) <==> Pairs(init, mutes, v, now, p) {
      assert p == (p.0, p.1);
    }
  }

  /** The count the join makes is the number of its rows. */
  lemma {:induction false} JoinCountsPairs(rows: seq<CheckRow>, mutes: seq<Mute>, v: Verdict, now: Time)
    ensures MutedCount(rows, mutes, v, now) == |PairSet(rows, mutes, v, now)|
  {
    if rows == [] {
      assert PairSet(rows, mutes, v, now) == {};
    } else {
      var init, c := rows[..|rows| - 1], Last(rows);
      assert rows == init + [c];
      JoinCountsPairs(init, mutes, v, now);
      MatchesByPosition(|init|, mutes, Silencing(c.Key(), now));
      PairSetSnoc(init, c, mutes, v, now);
      hide PairSet, Positions, Filter;
    }
  }

  lemma JoinedExactly(ops: seq<Op>, now: Time, a: Arrival, v: Verdict)
    requires IsNewest(State(ops), Accepted(ops), a) && Unswept(State(ops), a) && v.Bad()
    ensures var db := State(ops);
      Joined(db, a, v, now) == |Filter(ProblemsAt(db, now).muted, MutedIs(a.From(), v))| <==>
        !DoublyMuted(db, now, a, v)
  {
    hide State, IsNewest, ProblemsAt, MutedCount;
    MutedRowCount(ops, now, a, v);
    JoinExact(State(ops), RowsOf(State(ops), a.upload.id), v, now);
  }

  lemma TileArithmetic(ops: seq<Op>, now: Time, a: Arrival)
    requires IsNewest(State(ops), Accepted(ops), a)
    ensures a.upload.id in State(ops).reports
    ensures var db := State(ops); var t := TileFor(db, a.upload.id, now); var n := CountsOf(a.upload.checks);
      t.fail == SaturatingSub(n.fail, Joined(db, a, Fail, now))
      && t.warn == SaturatingSub(n.warn, Joined(db, a, Warn, now))
      && t.muted == Joined(db, a, Fail, now) + Joined(db, a, Warn, now)
      && t.pass == n.pass && t.skip == n.skip && t.total == n.pass + n.warn + n.fail + n.skip
  {
    TileOfNewest(ops, now, a);
  }

  /** Exactly when they disagree: a tile's count of a verdict is the problems view's unless some
      check of that verdict is muted twice while another one is open; its muted count is, unless
      some check is muted twice; and its five counts make the total unless a join exceeds what
      it is taken from. */
  lemma TileCountExactly(ops: seq<Op>, now: Time, a: Arrival)
    requires IsNewest(State(ops), Accepted(ops), a) && Unswept(State(ops), a)
    ensures a.upload.id in State(ops).reports
    ensures var db := State(ops); var t := TileFor(db, a.upload.id, now); var view := ProblemsAt(db, now);
      var fails := |Filter(view.checks, ProblemIs(a.From(), Fail))|;
      var warns := |Filter(view.checks, ProblemIs(a.From(), Warn))|;
      (t.fail == fails <==> fails == 0 || !DoublyMuted(db, now, a, Fail))
      && (t.warn == warns <==> warns == 0 || !DoublyMuted(db, now, a, Warn))
      && (t.muted == |Filter(view.muted, MutedFor(a.From()))| <==>
            !DoublyMuted(db, now, a, Fail) && !DoublyMuted(db, now, a, Warn))
      && (t.pass + t.warn + t.fail + t.skip + t.muted == t.total <==>
            Joined(db, a, Fail, now) <= CountOf(a.upload.checks, Fail)
            && Joined(db, a, Warn, now) <= CountOf(a.upload.checks, Warn))
  {
    hide State, IsNewest, ProblemsAt, Unswept, TileFor, DoublyMuted, Filter;
    TileArithmetic(ops, now, a);
    VerdictCounts(ops, now, a, Fail);
    VerdictCounts(ops, now, a, Warn);
    JoinedExactly(ops, now, a, Fail);
    JoinedExactly(ops, now, a, Warn);
    MutedViewBad(State(ops), now);
    MutedAreBad(ProblemsAt(State(ops), now).muted, a.From());
  }

  /** A check the overlay does not take off the tile. */
  ghost predicate Counts(db: Db, now: Time, a: Arrival, c: Check) {
    c in a.upload.checks
    && (c.verdict.Bad() ==> forall m :: m in db.mutes ==> !Covers(m, Identity(a.From(), c.name), now))
  }

  lemma OpenRowCounts(ops: seq<Op>, now: Time, a: Arrival, v: Verdict) returns (c: Check)
    requires Unswept(State(ops), a) && v.Bad()
    requires Filter(RowsOf(State(ops), a.upload.id), Both(RowVerdict(v), Unmuted(ListMutes(State(ops), now)))) != []
    ensures Counts(State(ops), now, a, c) && c.verdict == v
  {
    var db := State(ops);
    var keep := Both(RowVerdict(v), Unmuted(ListMutes(db, now)));
    var r := Filter(CheckRowsOf(a), keep)[0];
    FilterMember(CheckRowsOf(a), keep, r);
    OverlayMute(db, now, r.Key());
    var i :| 0 <= i < |CheckRowsOf(a)| && CheckRowsOf(a)[i] == r;
    c := a.upload.checks[i];
  }

  lemma CountedRowIsOpen(ops: seq<Op>, now: Time, a: Arrival, c: Check)
    requires Unswept(State(ops), a) && Counts(State(ops), now, a, c) && c.verdict.Bad()
    ensures var db := State(ops);
      Filter(RowsOf(db, a.upload.id), Both(RowVerdict(c.verdict), Unmuted(ListMutes(db, now)))) != []
  {
    var db := State(ops);
    var keep := Both(RowVerdict(c.verdict), Unmuted(ListMutes(db, now)));
    var i :| 0 <= i < |a.upload.checks| && a.upload.checks[i] == c;
    var r := CheckRowsOf(a)[i];
    OverlayMute(db, now, r.Key());
    assert r in CheckRowsOf(a) && keep(r);
    FilterMember(CheckRowsOf(a), keep, r);
  }

  lemma OpenWitness(ops: seq<Op>, now: Time, a: Arrival, v: Verdict)
    requires IsNewest(State(ops), Accepted(ops), a) && Unswept(State(ops), a) && v.Bad()
    ensures |Filter(ProblemsAt(State(ops), now).checks, ProblemIs(a.From(), v))| > 0 <==>
      exists c :: Counts(State(ops), now, a, c) && c.verdict == v
  {
    ProblemCount(ops, now, a, v);
    if Filter(RowsOf(State(ops), a.upload.id), Both(RowVerdict(v), Unmuted(ListMutes(State(ops), now)))) != [] {
      var c := OpenRowCounts(ops, now, a, v);
    }
    if c :| Counts(State(ops), now, a, c) && c.verdict == v {
      CountedRowIsOpen(ops, now, a, c);
    }
  }

  lemma CountWitness(checks: seq<Check>, v: Verdict)
    ensures CountOf(checks, v) > 0 <==> exists c :: c in checks && c.verdict == v
  {
    var hits := Filter(checks, HasVerdict(v));
    if hits != [] {
      FilterMember(checks, HasVerdict(v), hits[0]);
    }
    if c :| c in checks && c.verdict == v {
      FilterMember(checks, HasVerdict(v), c);
    }
  }

  ghost predicate SomeCounts(db: Db, now: Time, a: Arrival, v: Verdict) {
    exists c :: Counts(db, now, a, c) && c.verdict == v
  }

  /** `worst` is the most severe verdict that occurs, or skip when none does. */
  ghost predicate IsWorst(db: Db, now: Time, a: Arrival, worst: Verdict) {
    (forall v :: SomeCounts(db, now, a, v) ==> v.Severity() <= worst.Severity())
    && (SomeCounts(db, now, a, worst) || (worst == Skip && forall v :: !SomeCounts(db, now, a, v)))
  }

  lemma WorstOfOccurring(db: Db, now: Time, a: Arrival, fail: nat, warn: nat, pass: nat)
    requires fail > 0 <==> SomeCounts(db, now, a, Fail)
    requires warn > 0 <==> SomeCounts(db, now, a, Warn)
    requires pass > 0 <==> SomeCounts(db, now, a, Pass)
    ensures IsWorst(db, now, a, WorstOf(fail, warn, pass))
  {
    assert SomeCounts(db, now, a, WorstOf(fail, warn, pass)) || WorstOf(fail, warn, pass) == Skip;
  }

  lemma PassesCount(db: Db, now: Time, a: Arrival)
    ensures CountOf(a.upload.checks, Pass) > 0 <==> SomeCounts(db, now, a, Pass)
  {
    CountWitness(a.upload.checks, Pass);
    if c :| c in a.upload.checks && c.verdict == Pass {
      assert Counts(db, now, a, c);
    }
  }

  lemma ZeroedIsNotWorst(db: Db, now: Time, a: Arrival, v: Verdict, worst: Verdict)
    requires SomeCounts(db, now, a, v) && worst.Severity() < v.Severity()
    ensures !IsWorst(db, now, a, worst)
  {
  }

  /** A tile's colour is the worst verdict among the checks no live mute takes off it, exactly
      when the join leaves something of the most severe verdict that is still open. */
  lemma WorstExactly(ops: seq<Op>, now: Time, a: Arrival)
    requires IsNewest(State(ops), Accepted(ops), a) && Unswept(State(ops), a)
    ensures a.upload.id in State(ops).reports
    ensures var db := State(ops); var view := ProblemsAt(db, now);
      IsWorst(db, now, a, TileFor(db, a.upload.id, now).worst) <==>
        if |Filter(view.checks, ProblemIs(a.From(), Fail))| > 0 then
          Joined(db, a, Fail, now) < CountOf(a.upload.checks, Fail)
        else if |Filter(view.checks, ProblemIs(a.From(), Warn))| > 0 then
          Joined(db, a, Warn, now) < CountOf(a.upload.checks, Warn)
        else true
  {
    hide State, ProblemsAt, IsWorst, SomeCounts, IsNewest, RowsOf, MutedCount;
    TileOfNewest(ops, now, a);
    VerdictCounts(ops, now, a, Fail);
    VerdictCounts(ops, now, a, Warn);
    OpenCounts(ops, now, a, Fail);
    OpenCounts(ops, now, a, Warn);
    PassesCount(State(ops), now, a);
    var db, t := State(ops), TileFor(State(ops), a.upload.id, now);
    if SomeCounts(db, now, a, Fail) {
      if t.fail == 0 {
        ZeroedIsNotWorst(db, now, a, Fail, t.worst);
      } else {
        WorstIsFail(db, now, a);
      }
    } else if SomeCounts(db, now, a, Warn) {
      if t.warn == 0 {
        ZeroedIsNotWorst(db, now, a, Warn, t.worst);
      } else {
        WorstOfOccurring(db, now, a, 0, 1, t.pass);
      }
    } else {
      WorstOfOccurring(db, now, a, 0, 0, t.pass);
    }
  }

  lemma WorstIsFail(db: Db, now: Time, a: Arrival)
    requires SomeCounts(db, now, a, Fail)
    ensures IsWorst(db, now, a, Fail)
  {
  }

  lemma OpenCounts(ops: seq<Op>, now: Time, a: Arrival, v: Verdict)
    requires IsNewest(State(ops), Accepted(ops), a) && Unswept(State(ops), a) && v.Bad()
    ensures |Filter(ProblemsAt(State(ops), now).checks, ProblemIs(a.From(), v))| > 0 <==>
      SomeCounts(State(ops), now, a, v)
  {
    OpenWitness(ops, now, a, v);
  }

  /** So without overlapping mutes it always is. */
  lemma WorstIsMaximum(ops: seq<Op>, now: Time, a: Arrival)
    requires IsNewest(State(ops), Accepted(ops), a) && Unswept(State(ops), a)
    requires AtMostOneLive(State(ops).mutes, now)
    ensures a.upload.id in State(ops).reports
    ensures IsWorst(State(ops), now, a, TileFor(State(ops), a.upload.id, now).worst)
  {
    hide State, ProblemsAt, IsWorst, IsNewest;
    WorstExactly(ops, now, a);
    VerdictCounts(ops, now, a, Fail);
    VerdictCounts(ops, now, a, Warn);
  }
}
