/** The two summaries `ingest` maintains agree, in every reachable state, with their
    definitions over the whole history, and the repair paths restore exactly them. */
module Summaries {
  import opened ReportTypes
  import opened Sequences
  import opened Tables
  import opened Runs
  import Text

  // ---- latest_report ---------------------------------------------------------------------

  /** The pointer table is the ranking window: a row for each producer with reports, naming
      its (collected_at, id)-greatest report and caching that report's own time. */
  lemma PointerIsTheWindow(ops: seq<Op>)
    ensures var db := State(ops);
      db.latest.Keys == Producers(db.reports)
      && (forall who :: who in db.latest ==> PointsAtGreatest(db, who))
      && Window(db.reports) == db.latest
  {
    Reachable(ops);
    PointersAreGreatest(State(ops), Accepted(ops));
    WindowIsGreatest(State(ops), Accepted(ops));
  }

  /** Spelled out: every other report of the producer was collected earlier, or at the same
      millisecond under a smaller id. */
  lemma PointerIsGreatest(ops: seq<Op>, who: Producer, id: string)
    requires id in State(ops).reports && State(ops).reports[id].producer == who
    ensures who in State(ops).latest
    ensures var db := State(ops); var p := db.latest[who];
      p.reportId in db.reports && db.reports[p.reportId].producer == who
      && p.collectedAt == db.reports[p.reportId].collectedAt
      && (id == p.reportId || db.reports[id].collectedAt < p.collectedAt
          || (db.reports[id].collectedAt == p.collectedAt && Text.Below(id, p.reportId)))
  {
    hide State;
    PointerIsTheWindow(ops);
    assert PointsAtGreatest(State(ops), who);
  }

  /** Repairing a sound pointer table changes nothing. */
  lemma RebuildIsIdle(ops: seq<Op>)
    ensures AfterRebuild(State(ops)) == State(ops)
  {
    PointerIsTheWindow(ops);
    RebuildChangesNothing(State(ops));
  }

  /** Whatever the pointer table has been corrupted to, one rebuild restores it, unless it
      holds a row for a producer with no reports: those the upsert cannot reach. */
  lemma RebuildRestores(ops: seq<Op>, corrupt: map<Producer, Pointer>)
    ensures AfterRebuild(State(ops).(latest := corrupt)) == State(ops)
       <==> corrupt.Keys <= Producers(State(ops).reports)
  {
    hide State;
    var db := State(ops);
    PointerIsTheWindow(ops);
    var fixed := AfterRebuild(db.(latest := corrupt));
    assert fixed == db.(latest := corrupt + db.latest);
    assert (corrupt + db.latest).Keys == corrupt.Keys + db.latest.Keys;
    if corrupt.Keys <= db.latest.Keys {
      assert corrupt + db.latest == db.latest;
    }
  }

  // ---- problem_since ----------------------------------------------------------------------

  /** Take the longest suffix of a producer's records that all show a label failing. The
      label is open exactly when that suffix is not empty, and it is open since the first
      report of the suffix. */
  lemma FirstSeenIsRunStart(ops: seq<Op>, k: Identity, start: nat)
    requires IsLongestFailingSuffix(Records(Of(Accepted(ops), k.producer)), k.name, start)
    ensures var since := State(ops).since; var rs := Records(Of(Accepted(ops), k.producer));
      (k in since <==> start < |rs|) && (k in since ==> since[k] == rs[start].upload.collectedAt)
  {
    Reachable(ops);
    var rs := Records(Of(Accepted(ops), k.producer));
    assert OpenAsSpecified(State(ops).since, k, rs);
    RunStartIsLongest(rs, k.name);
    assert start == RunStart(rs, k.name);
  }

  lemma {:induction false} RecordsAreOf(xs: seq<Arrival>)
    ensures forall r :: r in Records(xs) ==> r in xs
  {
    if xs != [] {
      RecordsAreOf(xs[..|xs| - 1]);
    }
  }

  lemma {:induction false} RecordsIncrease(xs: seq<Arrival>)
    ensures forall i, j :: 0 <= i < j < |Records(xs)| ==> Newer(Records(xs)[j].Stamp(), Records(xs)[i].Stamp())
  {
    if xs != [] {
      var init := xs[..|xs| - 1];
      RecordsIncrease(init);
      RecordsAreOf(init);
      forall i | 0 <= i < |Records(init)| && IsRecord(init, Last(xs))
        ensures Newer(Last(xs).Stamp(), Records(init)[i].Stamp())
      {
        assert Records(init)[i] in init;
      }
    }
  }

  /** In-order delivery: every report is a record. */
  lemma {:induction false} InOrderAllRecords(xs: seq<Arrival>)
    requires forall i, j :: 0 <= i < j < |xs| ==> Newer(xs[j].Stamp(), xs[i].Stamp())
    ensures Records(xs) == xs
  {
    if xs != [] {
      InOrderAllRecords(xs[..|xs| - 1]);
    }
  }

  /** The accepted report a producer's pointer names. */
  ghost predicate IsNewest(db: Db, acc: seq<Arrival>, a: Arrival) {
    a in acc && a.From() in db.latest && db.latest[a.From()].reportId == a.upload.id
  }

  lemma NewestIsLastRecord(db: Db, acc: seq<Arrival>, a: Arrival)
    requires Inv(db, acc) && IsNewest(db, acc, a)
    ensures Records(Of(acc, a.From())) != [] && Last(Records(Of(acc, a.From()))) == a
  {
    assert Matches(db.latest, a.From(), Records(Of(acc, a.From())));
    LatestIsAccepted(db, acc, a.From());
    var r := Last(Records(Of(acc, a.From())));
    var i :| 0 <= i < |acc| && acc[i] == a;
    var j :| 0 <= j < |acc| && acc[j] == r;
    assert i == j;
  }

  /** Every pointer names an accepted report. */
  lemma NewestExists(db: Db, acc: seq<Arrival>, who: Producer) returns (a: Arrival)
    requires Inv(db, acc) && who in db.latest
    ensures IsNewest(db, acc, a) && a.From() == who && a.Stamp() == db.latest[who]
  {
    assert Matches(db.latest, who, Records(Of(acc, who)));
    LatestIsAccepted(db, acc, who);
    a := Last(Records(Of(acc, who)));
  }

  lemma RunStartsBeforeItsEnd(xs: seq<Arrival>, name: string)
    ensures var rs := Records(xs); var start := RunStart(rs, name);
      start < |rs| ==> rs[start].upload.collectedAt <= Last(rs).upload.collectedAt
  {
    RecordsIncrease(xs);
  }

  /** A producer's open labels are exactly the failing or warning labels of its newest
      report, repeated labels included, and none opened after that report. */
  lemma OpenLabelsAreNewestFailures(ops: seq<Op>, a: Arrival, name: string)
    requires IsNewest(State(ops), Accepted(ops), a)
    ensures var since := State(ops).since; var k := Identity(a.From(), name);
      (k in since <==> a.Shows(name)) && (k in since ==> since[k] <= a.upload.collectedAt)
  {
    hide State, Accepted, Records, Of, RunStart;
    Reachable(ops);
    NewestIsLastRecord(State(ops), Accepted(ops), a);
    var xs := Of(Accepted(ops), a.From());
    assert OpenAsSpecified(State(ops).since, Identity(a.From(), name), Records(xs));
    RunStartIsLongest(Records(xs), name);
    RunStartsBeforeItsEnd(xs, name);
  }

  /** A label of a producer that never reported is never open. */
  lemma SilentProducerHasNoOpenLabels(ops: seq<Op>, k: Identity)
    requires k in State(ops).since
    ensures k.producer in State(ops).latest
  {
    Reachable(ops);
    assert OpenAsSpecified(State(ops).since, k, Records(Of(Accepted(ops), k.producer)));
    assert Matches(State(ops).latest, k.producer, Records(Of(Accepted(ops), k.producer)));
  }

  /** Whatever happened to `problem_since`, the next report that takes its producer's
      pointer restores that producer's open labels and leaves everyone else's alone. */
  lemma DamageEndsAtNextNewest(db: Db, damaged: map<Identity, Time>, a: Arrival, k: Identity)
    requires Valid(a) && a.upload.id !in db.reports
    requires a.From() in db.latest ==> Newer(a.Stamp(), db.latest[a.From()])
    ensures var since := AfterIngest(db.(since := damaged), a).since;
      if k.producer == a.From() then k in since <==> a.Shows(k.name)
      else (k in since <==> k in damaged) && (k in since ==> since[k] == damaged[k])
  {
    ShowsIffBadKey(a, k);
    var db' := db.(since := damaged);
    assert AfterIngest(db', a).since == Reopen(damaged, a);
  }

  // ---- what a stored report says ---------------------------------------------------------------

  /** The row of an accepted upload is what was sent, and `ok` exactly when no check failed. */
  lemma StoredReportIsFaithful(ops: seq<Op>, a: Arrival)
    requires a in Accepted(ops)
    ensures a.upload.id in State(ops).reports
    ensures var r := State(ops).reports[a.upload.id];
      r.producer == Producer(a.source, a.upload.collector) && r.collectedAt == a.upload.collectedAt
      && r.receivedAt == a.receivedAt && r.durationMs == a.upload.durationMs && r.intervalS == a.upload.intervalS
      && (r.ok <==> forall i :: 0 <= i < |a.upload.checks| ==> a.upload.checks[i].verdict != Fail)
      && r.schema == a.upload.schema
      && r.counts == Counts(CountOf(a.upload.checks, Pass), CountOf(a.upload.checks, Warn),
                            CountOf(a.upload.checks, Fail), CountOf(a.upload.checks, Skip))
  {
    hide State, Accepted, Records, Of;
    Reachable(ops);
    var i :| 0 <= i < |Accepted(ops)| && Accepted(ops)[i] == a;
    assert Stored(State(ops).reports, Accepted(ops)[i]);
    NoneCounted(a.upload.checks, Fail);
  }

  lemma NoneCounted(checks: seq<Check>, v: Verdict)
    ensures CountOf(checks, v) == 0 <==> forall i :: 0 <= i < |checks| ==> checks[i].verdict != v
  {
    if CountOf(checks, v) > 0 {
      FilterMember(checks, HasVerdict(v), Filter(checks, HasVerdict(v))[0]);
    }
    forall i | 0 <= i < |checks| && checks[i].verdict == v ensures CountOf(checks, v) > 0 {
      FilterMember(checks, HasVerdict(v), checks[i]);
    }
  }

  /** Its check rows are the upload's checks in upload order, or have all been swept. */
  lemma StoredChecksAreFaithful(ops: seq<Op>, a: Arrival)
    requires a in Accepted(ops)
    ensures var rows := RowsOf(State(ops), a.upload.id);
      rows == [] || (|rows| == |a.upload.checks|
                     && forall i :: 0 <= i < |rows| ==>
                          rows[i] == CheckRow(a.upload.id, i, Producer(a.source, a.upload.collector),
                                              a.upload.collectedAt, a.upload.checks[i]))
  {
    hide State, Accepted, Records, Of, RowsOf, CheckRowsOf, SinceMatches, LatestMatches, ReportsMatch;
    Reachable(ops);
    var i :| 0 <= i < |Accepted(ops)| && Accepted(ops)[i] == a;
    var rows := RowsOf(State(ops), Accepted(ops)[i].upload.id);
    assert rows == CheckRowsOf(a) || rows == [];
    CarriesChecks(a);
  }

  lemma CarriesChecks(a: Arrival)
    ensures |CheckRowsOf(a)| == |a.upload.checks|
    ensures forall i :: 0 <= i < |CheckRowsOf(a)| ==>
              CheckRowsOf(a)[i] == CheckRow(a.upload.id, i, Producer(a.source, a.upload.collector),
                                            a.upload.collectedAt, a.upload.checks[i])
  {
    assert a.From() == Producer(a.source, a.upload.collector);
  }
}
