/** What the incrementally maintained tables mean: the two summaries `ingest` keeps,
    specified over the whole history of accepted reports, and the invariant that ties
    them together in every state a run of operations can reach. */
module Runs {
  import opened ReportTypes
  import opened Sequences
  import opened Tables

  function Ids(acc: seq<Arrival>): set<string> {
    set i | 0 <= i < |acc| :: acc[i].upload.id
  }

  /** The arrivals that were stored, in order of arrival: the valid ones, less replays. */
  function Accepted(ops: seq<Op>): seq<Arrival> {
    if ops == [] then []
    else
      var acc := Accepted(ops[..|ops| - 1]);
      match Last(ops)
      case Ingest(a) => if Valid(a) && a.upload.id !in Ids(acc) then acc + [a] else acc
      case _ => acc
  }

  /** What was accepted stays accepted, in its place. */
  lemma {:induction false} AcceptedGrows(ops: seq<Op>, n: nat)
    requires n <= |ops|
    ensures Accepted(ops[..n]) <= Accepted(ops)
  {
    if n < |ops| {
      var init := ops[..|ops| - 1];
      AcceptedGrows(init, n);
      assert init[..n] == ops[..n];
    } else {
      assert ops[..n] == ops;
    }
  }

  function SentBy(who: Producer): Arrival -> bool {
    (a: Arrival) => a.From() == who
  }

  function Of(acc: seq<Arrival>, who: Producer): seq<Arrival> {
    Filter(acc, SentBy(who))
  }

  /** On arrival it exceeded everything its producer had sent before. */
  predicate IsRecord(earlier: seq<Arrival>, a: Arrival) {
    forall i :: 0 <= i < |earlier| ==> Newer(a.Stamp(), earlier[i].Stamp())
  }

  function Records(xs: seq<Arrival>): seq<Arrival> {
    if xs == [] then []
    else Records(xs[..|xs| - 1]) + (if IsRecord(xs[..|xs| - 1], Last(xs)) then [Last(xs)] else [])
  }

  /** Where the longest suffix of reports that all show `name` failing begins. */
  function RunStart(rs: seq<Arrival>, name: string): (k: nat)
    ensures k <= |rs|
  {
    if rs != [] && Last(rs).Shows(name) then RunStart(rs[..|rs| - 1], name) else |rs|
  }

  ghost predicate IsLongestFailingSuffix(rs: seq<Arrival>, name: string, k: nat) {
    k <= |rs|
    && (forall i :: k <= i < |rs| ==> rs[i].Shows(name))
    && (k == 0 || !rs[k - 1].Shows(name))
  }

  lemma {:induction false} RunStartIsLongest(rs: seq<Arrival>, name: string)
    ensures IsLongestFailingSuffix(rs, name, RunStart(rs, name))
    ensures RunStart(rs, name) < |rs| <==> rs != [] && Last(rs).Shows(name)
  {
    if rs != [] && Last(rs).Shows(name) {
      RunStartIsLongest(rs[..|rs| - 1], name);
    }
  }

  // ---- the newest report --------------------------------------------------------------

  lemma {:induction false} LastRecordGreatest(xs: seq<Arrival>)
    requires xs != []
    ensures Records(xs) != [] && Last(Records(xs)) in xs
    ensures forall x :: x in xs ==>
      x.Stamp() == Last(Records(xs)).Stamp() || Newer(Last(Records(xs)).Stamp(), x.Stamp())
  {
    var init, a := xs[..|xs| - 1], Last(xs);
    assert xs == init + [a];
    if init != [] {
      LastRecordGreatest(init);
      if !IsRecord(init, a) {
        var r := Last(Records(init));
        assert Records(xs) == Records(init);
        var i :| 0 <= i < |init| && !Newer(a.Stamp(), init[i].Stamp());
        NewerTotal(a.Stamp(), init[i].Stamp());
        assert init[i] in init;
        if Newer(init[i].Stamp(), a.Stamp()) && r.Stamp() != init[i].Stamp() {
          NewerTransitive(r.Stamp(), init[i].Stamp(), a.Stamp());
        }
      }
    }
  }

  /** The comparison `ingest` makes with the stored pointer decides record-hood. */
  lemma RecordIffNewerThanLast(xs: seq<Arrival>, a: Arrival)
    requires xs != []
    ensures Records(xs) != []
    ensures IsRecord(xs, a) <==> Newer(a.Stamp(), Last(Records(xs)).Stamp())
  {
    LastRecordGreatest(xs);
    var r := Last(Records(xs));
    if Newer(a.Stamp(), r.Stamp()) {
      forall i | 0 <= i < |xs| ensures Newer(a.Stamp(), xs[i].Stamp()) {
        assert xs[i] in xs;
        if xs[i].Stamp() != r.Stamp() {
          NewerTransitive(a.Stamp(), r.Stamp(), xs[i].Stamp());
        }
      }
    }
  }

  // ---- the invariant -------------------------------------------------------------------

  ghost predicate DistinctIds(acc: seq<Arrival>) {
    forall i, j :: 0 <= i < j < |acc| ==> acc[i].upload.id != acc[j].upload.id
  }

  /** Its report row, whatever a sweep did to the raw body. */
  ghost predicate Stored(reports: map<string, ReportRow>, a: Arrival) {
    a.upload.id in reports && reports[a.upload.id].(raw := None) == RowOf(a).(raw := None)
  }

  ghost predicate ReportsMatch(db: Db, acc: seq<Arrival>) {
    DistinctIds(acc)
    && db.reports.Keys == Ids(acc)
    && forall i :: 0 <= i < |acc| ==> Stored(db.reports, acc[i])
  }

  /** A report's check rows are all there, or all swept. */
  ghost predicate ChecksMatch(db: Db, acc: seq<Arrival>) {
    (forall i :: 0 <= i < |acc| ==>
      RowsOf(db, acc[i].upload.id) == CheckRowsOf(acc[i]) || RowsOf(db, acc[i].upload.id) == [])
    && forall c :: c in db.checks ==> c.reportId in Ids(acc)
  }

  ghost predicate LatestMatches(latest: map<Producer, Pointer>, acc: seq<Arrival>) {
    forall who :: Matches(latest, who, Records(Of(acc, who)))
  }

  ghost predicate Matches(latest: map<Producer, Pointer>, who: Producer, rs: seq<Arrival>) {
    (who in latest <==> rs != []) && (who in latest ==> latest[who] == Last(rs).Stamp())
  }

  ghost predicate SinceMatches(since: map<Identity, Time>, acc: seq<Arrival>) {
    forall k: Identity :: OpenAsSpecified(since, k, Records(Of(acc, k.producer)))
  }

  /** One key of `problem_since` against the records of its producer. */
  ghost predicate OpenAsSpecified(since: map<Identity, Time>, k: Identity, rs: seq<Arrival>) {
    var start := RunStart(rs, k.name);
    (k in since <==> start < |rs|) && (k in since ==> since[k] == rs[start].upload.collectedAt)
  }

  ghost predicate Inv(db: Db, acc: seq<Arrival>) {
    ReportsMatch(db, acc) && ChecksMatch(db, acc) && LatestMatches(db.latest, acc) && SinceMatches(db.since, acc)
  }

  lemma OfSnoc(acc: seq<Arrival>, a: Arrival, who: Producer)
    ensures Of(acc + [a], who) == if a.From() == who then Of(acc, who) + [a] else Of(acc, who)
  {
    FilterSnoc(acc, a, SentBy(who));
  }

  lemma OfMember(acc: seq<Arrival>, who: Producer, a: Arrival)
    ensures a in Of(acc, who) <==> a in acc && a.From() == who
  {
    FilterMember(acc, SentBy(who), a);
  }

  lemma RecordsSnoc(xs: seq<Arrival>, a: Arrival)
    ensures Records(xs + [a]) == if IsRecord(xs, a) then Records(xs) + [a] else Records(xs)
  {
    assert (xs + [a])[..|xs|] == xs;
  }

  lemma CheckRowsBelong(a: Arrival)
    ensures Filter(CheckRowsOf(a), OfReport(a.upload.id)) == CheckRowsOf(a)
    ensures forall id :: id != a.upload.id ==> Filter(CheckRowsOf(a), OfReport(id)) == []
  {
    FilterAll(CheckRowsOf(a), OfReport(a.upload.id));
    forall id | id != a.upload.id ensures Filter(CheckRowsOf(a), OfReport(id)) == [] {
      FilterNone(CheckRowsOf(a), OfReport(id));
    }
  }

  lemma RowsAfterIngest(db: Db, a: Arrival, id: string)
    requires Valid(a) && a.upload.id !in db.reports
    ensures RowsOf(AfterIngest(db, a), id) == RowsOf(db, id) + (if id == a.upload.id then CheckRowsOf(a) else [])
  {
    FilterAppend(db.checks, CheckRowsOf(a), OfReport(id));
    CheckRowsBelong(a);
  }

  lemma IdsSnoc(acc: seq<Arrival>, a: Arrival)
    ensures Ids(acc + [a]) == Ids(acc) + {a.upload.id}
    ensures forall i :: 0 <= i < |acc| ==> acc[i].upload.id in Ids(acc)
  {
    var acc' := acc + [a];
    assert acc'[|acc|] == a;
    assert forall i :: 0 <= i < |acc| ==> acc'[i] == acc[i];
  }

  lemma DistinctSnoc(acc: seq<Arrival>, a: Arrival)
    requires DistinctIds(acc) && a.upload.id !in Ids(acc)
    ensures DistinctIds(acc + [a])
  {
    IdsSnoc(acc, a);
  }

  lemma IngestKeepsReports(db: Db, acc: seq<Arrival>, a: Arrival)
    requires ReportsMatch(db, acc)
    requires Valid(a) && a.upload.id !in Ids(acc)
    ensures ReportsMatch(AfterIngest(db, a), acc + [a])
  {
    var acc', reports' := acc + [a], db.reports[a.upload.id := RowOf(a)];
    IdsSnoc(acc, a);
    DistinctSnoc(acc, a);
    forall i | 0 <= i < |acc'| ensures Stored(reports', acc'[i]) {
      if i < |acc| {
        assert acc'[i] == acc[i] && Stored(db.reports, acc[i]);
      }
    }
    assert AfterIngest(db, a).reports == reports';
  }

  lemma NoRowsYet(db: Db, acc: seq<Arrival>, id: string)
    requires ChecksMatch(db, acc) && id !in Ids(acc)
    ensures RowsOf(db, id) == []
  {
    FilterNone(db.checks, OfReport(id));
  }

  lemma CheckRowsNameReport(a: Arrival)
    ensures forall c :: c in CheckRowsOf(a) ==> c.reportId == a.upload.id
  {
  }

  lemma IngestKeepsChecks(db: Db, acc: seq<Arrival>, a: Arrival)
    requires db.reports.Keys == Ids(acc) && ChecksMatch(db, acc)
    requires Valid(a) && a.upload.id !in Ids(acc)
    ensures ChecksMatch(AfterIngest(db, a), acc + [a])
  {
    hide Tables.Valid, RowsOf, CheckRowsOf, Ids;
    var db', acc' := AfterIngest(db, a), acc + [a];
    IdsSnoc(acc, a);
    assert db'.checks == db.checks + CheckRowsOf(a);
    NoRowsYet(db, acc, a.upload.id);
    CheckRowsNameReport(a);
    forall i | 0 <= i < |acc'|
      ensures RowsOf(db', acc'[i].upload.id) == CheckRowsOf(acc'[i]) || RowsOf(db', acc'[i].upload.id) == []
    {
      RowsAfterIngest(db, a, acc'[i].upload.id);
      if i == |acc| {
        assert [] + CheckRowsOf(a) == CheckRowsOf(a);
      } else {
        assert acc'[i] == acc[i] && acc[i].upload.id != a.upload.id;
        assert RowsOf(db, acc[i].upload.id) + [] == RowsOf(db, acc[i].upload.id);
      }
    }
    forall c | c in db'.checks ensures c.reportId in Ids(acc') {
      assert c in db.checks || c in CheckRowsOf(a);
    }
  }

  /** The upsert's comparison keeps the pointer at the last record. */
  lemma AdvanceKeepsPointer(latest: map<Producer, Pointer>, mine: seq<Arrival>, a: Arrival)
    requires Matches(latest, a.From(), Records(mine))
    requires forall i :: 0 <= i < |mine| ==> mine[i].upload.id != a.upload.id
    ensures var latest' := Advance(latest, a.From(), a.Stamp());
      Matches(latest', a.From(), Records(mine + [a]))
      && (latest'[a.From()].reportId == a.upload.id <==> IsRecord(mine, a))
  {
    RecordsSnoc(mine, a);
    if mine == [] {
      assert Records(mine) == [];
    } else {
      hide Records, IsRecord;
      RecordIffNewerThanLast(mine, a);
      LastRecordGreatest(mine);
    }
  }

  lemma OthersKeepPointer(latest: map<Producer, Pointer>, rs: seq<Arrival>, a: Arrival, who: Producer)
    requires Matches(latest, who, rs) && who != a.From()
    ensures Matches(Advance(latest, a.From(), a.Stamp()), who, rs)
  {
    hide Newer;
  }

  lemma LatestOfIngest(db: Db, a: Arrival)
    requires Valid(a) && a.upload.id !in db.reports
    ensures AfterIngest(db, a).latest == Advance(db.latest, a.From(), a.Stamp())
  {
    hide Advance, Reopen, RefusalOf, RowOf, CheckRowsOf;
  }

  lemma IngestKeepsLatest(db: Db, acc: seq<Arrival>, a: Arrival, who: Producer)
    requires Inv(db, acc)
    requires Valid(a) && a.upload.id !in Ids(acc)
    ensures Matches(AfterIngest(db, a).latest, who, Records(Of(acc + [a], who)))
    ensures AfterIngest(db, a).latest[a.From()].reportId == a.upload.id <==> IsRecord(Of(acc, a.From()), a)
  {
    LatestOfIngest(db, a);
    FreshAmong(acc, a.From(), a.upload.id);
    assert Matches(db.latest, a.From(), Records(Of(acc, a.From())));
    assert Matches(db.latest, who, Records(Of(acc, who)));
    hide *;
    OfSnoc(acc, a, who);
    AdvanceKeepsPointer(db.latest, Of(acc, a.From()), a);
    if who != a.From() {
      OthersKeepPointer(db.latest, Records(Of(acc, who)), a, who);
    }
  }

  lemma FreshAmong(acc: seq<Arrival>, who: Producer, id: string)
    requires id !in Ids(acc)
    ensures forall i :: 0 <= i < |Of(acc, who)| ==> Of(acc, who)[i].upload.id != id
  {
    var mine := Of(acc, who);
    hide Of;
    forall i | 0 <= i < |mine| ensures mine[i].upload.id != id {
      OfMember(acc, who, mine[i]);
      var j :| 0 <= j < |acc| && acc[j] == mine[i];
    }
  }

  lemma ShowsIffBadKey(a: Arrival, k: Identity)
    ensures k in BadKeys(a) <==> k.producer == a.From() && a.Shows(k.name)
  {
    if k.producer == a.From() && a.Shows(k.name) {
      var i :| 0 <= i < |a.upload.checks| && a.upload.checks[i].name == k.name && a.upload.checks[i].verdict.Bad();
      assert Identity(a.From(), a.upload.checks[i].name) == k;
    }
  }

  lemma RunStartSnoc(rs: seq<Arrival>, a: Arrival, name: string)
    ensures RunStart(rs + [a], name) == if a.Shows(name) then RunStart(rs, name) else |rs| + 1
  {
    assert (rs + [a])[..|rs|] == rs;
  }

  lemma ReopenedAsSpecified(since: map<Identity, Time>, a: Arrival, k: Identity, rs: seq<Arrival>)
    requires OpenAsSpecified(since, k, rs)
    ensures OpenAsSpecified(Reopen(since, a), k, if k.producer == a.From() then rs + [a] else rs)
  {
    RunStartSnoc(rs, a, k.name);
    ShowsIffBadKey(a, k);
  }

  lemma SinceStep(since: map<Identity, Time>, a: Arrival, k: Identity, xs: seq<Arrival>, xs': seq<Arrival>,
                  record: bool, since': map<Identity, Time>)
    requires OpenAsSpecified(since, k, Records(xs))
    requires xs' == if k.producer == a.From() then xs + [a] else xs
    requires k.producer == a.From() ==> record == IsRecord(xs, a)
    requires since' == if record then Reopen(since, a) else since
    ensures OpenAsSpecified(since', k, Records(xs'))
  {
    if k.producer == a.From() {
      RecordsSnoc(xs, a);
    }
    if record {
      ReopenedAsSpecified(since, a, k, Records(xs));
    }
  }

  lemma IngestKeepsSince(db: Db, acc: seq<Arrival>, a: Arrival, k: Identity)
    requires Inv(db, acc)
    requires Valid(a) && a.upload.id !in Ids(acc)
    ensures OpenAsSpecified(AfterIngest(db, a).since, k, Records(Of(acc + [a], k.producer)))
  {
    var record := IsRecord(Of(acc, a.From()), a);
    IngestKeepsLatest(db, acc, a, a.From());
    OfSnoc(acc, a, k.producer);
    SinceStep(db.since, a, k, Of(acc, k.producer), Of(acc + [a], k.producer), record, AfterIngest(db, a).since);
  }

  lemma IngestKeepsInv(db: Db, acc: seq<Arrival>, a: Arrival)
    requires Inv(db, acc)
    requires Valid(a) && a.upload.id !in Ids(acc)
    ensures Inv(AfterIngest(db, a), acc + [a])
  {
    IngestKeepsReports(db, acc, a);
    IngestKeepsChecks(db, acc, a);
    forall who ensures Matches(AfterIngest(db, a).latest, who, Records(Of(acc + [a], who))) {
      IngestKeepsLatest(db, acc, a, who);
    }
    forall k: Identity ensures OpenAsSpecified(AfterIngest(db, a).since, k, Records(Of(acc + [a], k.producer))) {
      IngestKeepsSince(db, acc, a, k);
    }
  }

  /** The rows of one report share its collection time, so a sweep takes all or none. */
  lemma SweepTakesAllOrNone(db: Db, a: Arrival, raw: Time, cutoff: Time)
    requires RowsOf(db, a.upload.id) == CheckRowsOf(a) || RowsOf(db, a.upload.id) == []
    ensures RowsOf(AfterSweep(db, raw, cutoff), a.upload.id)
         == if a.upload.collectedAt >= cutoff then RowsOf(db, a.upload.id) else []
  {
    FilterCommutes(db.checks, CollectedFrom(cutoff), OfReport(a.upload.id));
    var rows := RowsOf(db, a.upload.id);
    if a.upload.collectedAt >= cutoff {
      FilterAll(rows, CollectedFrom(cutoff));
    } else {
      FilterNone(rows, CollectedFrom(cutoff));
    }
  }

  lemma SweepKeepsChecks(db: Db, acc: seq<Arrival>, raw: Time, cutoff: Time)
    requires ChecksMatch(db, acc)
    ensures ChecksMatch(AfterSweep(db, raw, cutoff), acc)
  {
    var db' := AfterSweep(db, raw, cutoff);
    forall i | 0 <= i < |acc|
      ensures RowsOf(db', acc[i].upload.id) == CheckRowsOf(acc[i]) || RowsOf(db', acc[i].upload.id) == []
    {
      SweepTakesAllOrNone(db, acc[i], raw, cutoff);
    }
    forall c | c in db'.checks ensures c.reportId in Ids(acc) {
      FilterMember(db.checks, CollectedFrom(cutoff), c);
    }
  }

  lemma SweepKeepsReports(db: Db, acc: seq<Arrival>, raw: Time, cutoff: Time)
    requires ReportsMatch(db, acc)
    ensures ReportsMatch(AfterSweep(db, raw, cutoff), acc)
  {
    IdsOfAll(acc);
  }

  lemma IdsOfAll(acc: seq<Arrival>)
    ensures forall i :: 0 <= i < |acc| ==> acc[i].upload.id in Ids(acc)
  {
  }

  lemma SweepKeepsInv(db: Db, acc: seq<Arrival>, raw: Time, cutoff: Time)
    requires Inv(db, acc)
    ensures Inv(AfterSweep(db, raw, cutoff), acc)
  {
    SweepKeepsReports(db, acc, raw, cutoff);
    SweepKeepsChecks(db, acc, raw, cutoff);
    var db' := AfterSweep(db, raw, cutoff);
    assert db'.latest == db.latest && db'.since == db.since;
  }

  // ---- the window ----------------------------------------------------------------------

  /** What the pointer of a producer with reports must be. */
  ghost predicate PointsAtGreatest(db: Db, who: Producer) {
    who in db.latest
    && var p := db.latest[who];
       RanksFirst(db.reports, p.reportId)
       && db.reports[p.reportId].producer == who
       && db.reports[p.reportId].collectedAt == p.collectedAt
  }

  lemma PointersAreGreatest(db: Db, acc: seq<Arrival>)
    requires Inv(db, acc)
    ensures db.latest.Keys == Producers(db.reports)
    ensures forall who :: who in db.latest ==> PointsAtGreatest(db, who)
  {
    hide Records, Of;
    forall who ensures who in db.latest <==> who in Producers(db.reports) {
      assert Matches(db.latest, who, Records(Of(acc, who)));
      if who in db.latest {
        LatestIsAccepted(db, acc, who);
      } else if who in Producers(db.reports) {
        var id :| id in db.reports && db.reports[id].producer == who;
        var i :| 0 <= i < |acc| && acc[i].upload.id == id;
        OfMember(acc, who, acc[i]);
        LastRecordGreatest(Of(acc, who));
      }
    }
    forall who | who in db.latest ensures PointsAtGreatest(db, who) {
      assert Matches(db.latest, who, Records(Of(acc, who)));
      LatestIsAccepted(db, acc, who);
      var r := Last(Records(Of(acc, who)));
      forall other | other in db.reports && db.reports[other].producer == who
        ensures other == r.upload.id || Newer(r.Stamp(), StampIn(db.reports, other))
      {
        var i :| 0 <= i < |acc| && acc[i].upload.id == other;
        OfMember(acc, who, acc[i]);
        assert acc[i].Stamp() == StampIn(db.reports, other);
      }
    }
  }

  lemma LatestIsAccepted(db: Db, acc: seq<Arrival>, who: Producer)
    requires Inv(db, acc) && Records(Of(acc, who)) != []
    ensures Of(acc, who) != []
    ensures var r := Last(Records(Of(acc, who)));
      r in acc && r.From() == who && r.upload.id in db.reports
      && db.reports[r.upload.id].producer == who && db.reports[r.upload.id].collectedAt == r.upload.collectedAt
      && forall x :: x in Of(acc, who) ==> x.Stamp() == r.Stamp() || Newer(r.Stamp(), x.Stamp())
  {
    assert Of(acc, who) != [];
    LastRecordGreatest(Of(acc, who));
    var r := Last(Records(Of(acc, who)));
    OfMember(acc, who, r);
    var i :| 0 <= i < |acc| && acc[i] == r;
    assert acc[i].upload.id in Ids(acc);
  }

  /** Any pointer table is overwritten by the window wherever the window has a row. */
  lemma WindowIsGreatest(db: Db, acc: seq<Arrival>)
    requires Inv(db, acc)
    ensures Window(db.reports) == db.latest
  {
    PointersAreGreatest(db, acc);
    forall who | who in db.latest ensures Window(db.reports)[who] == db.latest[who] {
      FirstUnique(db.reports, who);
      assert PointsAtGreatest(db, who);
    }
  }

  lemma InvReadsFourTables(db: Db, db': Db, acc: seq<Arrival>)
    requires Inv(db, acc)
    requires db'.reports == db.reports && db'.checks == db.checks
    requires db'.latest == db.latest && db'.since == db.since
    ensures Inv(db', acc)
  {
    assert forall id :: RowsOf(db', id) == RowsOf(db, id);
  }

  // ---- every reachable state --------------------------------------------------------------

  /** Mutes and retirements are kept apart from everything a producer sent. */
  lemma OverlaysLeaveFacts(db: Db, op: Op)
    requires op.CreateMute? || op.DeleteMute? || op.Retire? || op.Unretire?
    ensures var db' := Apply(db, op);
      db'.reports == db.reports && db'.checks == db.checks && db'.latest == db.latest && db'.since == db.since
  {
  }

  lemma RebuildChangesNothing(db: Db)
    requires Window(db.reports) == db.latest
    ensures AfterRebuild(db) == db
  {
    assert db.latest + db.latest == db.latest;
  }

  lemma RebuildKeepsInv(db: Db, acc: seq<Arrival>)
    requires Inv(db, acc)
    ensures Inv(AfterRebuild(db), acc)
  {
    WindowIsGreatest(db, acc);
    RebuildChangesNothing(db);
  }

  lemma OverlayKeepsInv(db: Db, acc: seq<Arrival>, op: Op)
    requires Inv(db, acc)
    requires op.CreateMute? || op.DeleteMute? || op.Retire? || op.Unretire?
    ensures Inv(Apply(db, op), acc)
  {
    OverlaysLeaveFacts(db, op);
    InvReadsFourTables(db, Apply(db, op), acc);
  }

  /** The invariant holds after every run of operations. */
  lemma {:induction false} Reachable(ops: seq<Op>)
    ensures Inv(State(ops), Accepted(ops))
  {
    if ops == [] {
      assert Records([]) == [];
    } else {
      var init := ops[..|ops| - 1];
      Reachable(init);
      if Last(ops).Ingest? {
        var a := Last(ops).a;
        if Valid(a) && a.upload.id !in Ids(Accepted(init)) {
          IngestKeepsInv(State(init), Accepted(init), a);
        }
      } else if Last(ops).Sweep? {
        SweepKeepsInv(State(init), Accepted(init), Last(ops).rawCutoff, Last(ops).checkCutoff);
      } else if Last(ops).Rebuild? {
        RebuildKeepsInv(State(init), Accepted(init));
      } else {
        OverlayKeepsInv(State(init), Accepted(init), Last(ops));
      }
    }
  }
}
