/** The migration's derive-on-read query for the start of a run, and when the maintained
    table agrees with it. */
module Backfill {
  import opened ReportTypes
  import opened Sequences
  import opened Tables
  import opened Runs
  import opened Summaries
  import opened Agreement

  ghost predicate BadAt(db: Db, k: Identity, t: Time) {
    exists c :: c in db.checks && c.Key() == k && c.check.verdict.Bad() && c.collectedAt == t
  }

  ghost predicate GoodAt(db: Db, k: Identity, t: Time) {
    exists c :: c in db.checks && c.Key() == k && !c.check.verdict.Bad() && c.collectedAt == t
  }

  /** `t` lies after the last pass or skip of the identity, or after the epoch if there is none. */
  ghost predicate AfterLastGood(db: Db, k: Identity, t: Time) {
    (forall g :: GoodAt(db, k, g) ==> g < t) && ((forall g :: !GoodAt(db, k, g)) ==> t > 0)
  }

  /** `t` is the query's MIN. */
  ghost predicate Started(db: Db, k: Identity, t: Time) {
    BadAt(db, k, t) && AfterLastGood(db, k, t)
    && forall u :: BadAt(db, k, u) && AfterLastGood(db, k, u) ==> t <= u
  }

  /** The outer query: an identity failing in its producer's latest report. */
  ghost predicate FailingNow(db: Db, k: Identity) {
    exists c :: c in db.checks && CurrentBad(db.latest)(c) && c.Key() == k
  }

  /** The row the backfill writes for an identity, if any. */
  ghost predicate Backfills(db: Db, k: Identity, t: Time) {
    FailingNow(db, k) && Started(db, k, t)
  }

  /** The report carries the label exactly once. */
  ghost predicate CarriesOnce(a: Arrival, name: string) {
    exists i :: CarriesOnlyAt(a, name, i)
  }

  ghost predicate CarriesOnlyAt(a: Arrival, name: string, i: nat) {
    i < |a.upload.checks| && a.upload.checks[i].name == name
    && forall j :: 0 <= j < |a.upload.checks| && a.upload.checks[j].name == name ==> j == i
  }

  /** In order, after the epoch, and carrying the label once each. */
  ghost predicate Orderly(xs: seq<Arrival>, name: string) {
    (forall i, j :: 0 <= i < j < |xs| ==> xs[i].upload.collectedAt < xs[j].upload.collectedAt)
    && forall i :: 0 <= i < |xs| ==> xs[i].upload.collectedAt > 0 && CarriesOnce(xs[i], name)
  }

  /** Some report collected at `t` shows the label bad, or not bad. */
  ghost predicate ReportAt(xs: seq<Arrival>, name: string, t: Time, bad: bool) {
    exists a :: a in xs && a.upload.collectedAt == t && a.Shows(name) == bad
  }

  lemma OnceShows(a: Arrival, name: string, j: nat)
    requires CarriesOnce(a, name) && j < |a.upload.checks| && a.upload.checks[j].name == name
    ensures a.Shows(name) == a.upload.checks[j].verdict.Bad()
  {
    var n: nat :| CarriesOnlyAt(a, name, n);
    assert n == j;
  }

  /** None of the producer's check rows has been swept. */
  ghost predicate NoneSwept(db: Db, acc: seq<Arrival>, who: Producer) {
    forall a :: a in Of(acc, who) ==> Unswept(db, a)
  }

  lemma RowOfReport(db: Db, acc: seq<Arrival>, k: Identity, a: Arrival) returns (c: CheckRow)
    requires NoneSwept(db, acc, k.producer)
    requires a in Of(acc, k.producer) && CarriesOnce(a, k.name)
    ensures c in db.checks && c.Key() == k && c.collectedAt == a.upload.collectedAt && c.reportId == a.upload.id
    ensures c.check.verdict.Bad() == a.Shows(k.name)
  {
    OfMember(acc, k.producer, a);
    assert Unswept(db, a);
    var n: nat :| CarriesOnlyAt(a, k.name, n);
    OnceShows(a, k.name, n);
    c := CheckRowsOf(a)[n];
    assert c in CheckRowsOf(a);
    FilterMember(db.checks, OfReport(a.upload.id), c);
  }

  lemma RowIndex(a: Arrival, c: CheckRow) returns (j: nat)
    requires c in CheckRowsOf(a)
    ensures j < |a.upload.checks| && CheckRowsOf(a)[j] == c
  {
    j :| 0 <= j < |CheckRowsOf(a)| && CheckRowsOf(a)[j] == c;
  }

  lemma ArrivalOfRow(db: Db, acc: seq<Arrival>, c: CheckRow) returns (a: Arrival, j: nat)
    requires ChecksMatch(db, acc) && c in db.checks
    ensures a in acc && j < |a.upload.checks| && CheckRowsOf(a)[j] == c
  {
    var i :| 0 <= i < |acc| && acc[i].upload.id == c.reportId;
    a := acc[i];
    FilterMember(db.checks, OfReport(c.reportId), c);
    j := RowIndex(a, c);
  }

  lemma ReportOfRow(db: Db, acc: seq<Arrival>, k: Identity, c: CheckRow) returns (a: Arrival)
    requires ChecksMatch(db, acc)
    requires forall a :: a in Of(acc, k.producer) ==> CarriesOnce(a, k.name)
    requires c in db.checks && c.Key() == k
    ensures a in Of(acc, k.producer) && a.upload.collectedAt == c.collectedAt && a.upload.id == c.reportId
    ensures a.Shows(k.name) == c.check.verdict.Bad()
  {
    var j;
    a, j := ArrivalOfRow(db, acc, c);
    OfMember(acc, k.producer, a);
    OnceShows(a, k.name, j);
  }

  /** The producer's rows of a label, seen as its reports: one verdict per report. */
  lemma RowsAreReports(db: Db, acc: seq<Arrival>, k: Identity, t: Time)
    requires ChecksMatch(db, acc) && NoneSwept(db, acc, k.producer)
    requires forall a :: a in Of(acc, k.producer) ==> CarriesOnce(a, k.name)
    ensures BadAt(db, k, t) <==> ReportAt(Of(acc, k.producer), k.name, t, true)
    ensures GoodAt(db, k, t) <==> ReportAt(Of(acc, k.producer), k.name, t, false)
  {
    forall a | a in Of(acc, k.producer)
      ensures if a.Shows(k.name) then BadAt(db, k, a.upload.collectedAt) else GoodAt(db, k, a.upload.collectedAt)
    {
      var c := RowOfReport(db, acc, k, a);
    }
    forall c | c in db.checks && c.Key() == k
      ensures ReportAt(Of(acc, k.producer), k.name, c.collectedAt, c.check.verdict.Bad())
    {
      var a := ReportOfRow(db, acc, k, c);
    }
  }

  /** Where the longest failing suffix starts, no later good report and no earlier bad one
      after the last good one exist. */
  lemma StartIsLeast(xs: seq<Arrival>, name: string, start: nat, t: Time, bad: bool)
    requires Orderly(xs, name) && IsLongestFailingSuffix(xs, name, start) && start < |xs|
    requires ReportAt(xs, name, t, bad)
    ensures !bad ==> t < xs[start].upload.collectedAt
    ensures bad && (start > 0 ==> xs[start - 1].upload.collectedAt < t) ==> xs[start].upload.collectedAt <= t
  {
    var a :| a in xs && a.upload.collectedAt == t && a.Shows(name) == bad;
    var i :| 0 <= i < |xs| && xs[i] == a;
  }

  /** The start of the run is the query's minimum. */
  lemma RunStartIsStarted(db: Db, acc: seq<Arrival>, k: Identity, start: nat)
    requires ChecksMatch(db, acc) && NoneSwept(db, acc, k.producer)
    requires var xs := Of(acc, k.producer);
      Orderly(xs, k.name) && IsLongestFailingSuffix(xs, k.name, start) && start < |xs|
    ensures Started(db, k, Of(acc, k.producer)[start].upload.collectedAt)
  {
    var xs := Of(acc, k.producer);
    RowsAreReports(db, acc, k, xs[start].upload.collectedAt);
    assert xs[start] in xs;
    forall g | GoodAt(db, k, g) ensures g < xs[start].upload.collectedAt {
      RowsAreReports(db, acc, k, g);
      StartIsLeast(xs, k.name, start, g, false);
    }
    forall u | BadAt(db, k, u) && AfterLastGood(db, k, u) ensures xs[start].upload.collectedAt <= u {
      RowsAreReports(db, acc, k, u);
      if start > 0 {
        assert xs[start - 1] in xs;
        RowsAreReports(db, acc, k, xs[start - 1].upload.collectedAt);
      }
      StartIsLeast(xs, k.name, start, u, true);
    }
  }

  /** While none of the producer's rows has been swept, the maintained start equals the derived
      one, present and absent alike. */
  lemma MaintainedEqualsDerived(ops: seq<Op>, k: Identity, t: Time)
    requires NoneSwept(State(ops), Accepted(ops), k.producer)
    requires Orderly(Of(Accepted(ops), k.producer), k.name)
    ensures k in State(ops).since && State(ops).since[k] == t <==> Backfills(State(ops), k, t)
  {
    Reachable(ops);
    var db, acc := State(ops), Accepted(ops);
    var xs := Of(acc, k.producer);
    InOrderAllRecords(xs);
    RunStartIsLongest(xs, k.name);
    FirstSeenIsRunStart(ops, k, RunStart(xs, k.name));
    FailingNowIffOpen(ops, k);
    if k in db.since {
      RunStartIsStarted(db, acc, k, RunStart(xs, k.name));
    }
  }

  lemma FailingNowIffOpen(ops: seq<Op>, k: Identity)
    requires NoneSwept(State(ops), Accepted(ops), k.producer)
    requires forall a :: a in Of(Accepted(ops), k.producer) ==> CarriesOnce(a, k.name)
    ensures FailingNow(State(ops), k) <==> k in State(ops).since
  {
    hide State, Records, NoneSwept;
    if FailingNow(State(ops), k) {
      FailingIsOpen(ops, k);
    }
    if k in State(ops).since {
      OpenIsFailing(ops, k);
    }
  }

  lemma FailingIsOpen(ops: seq<Op>, k: Identity)
    requires FailingNow(State(ops), k)
    ensures k in State(ops).since
  {
    hide State, Records;
    Reachable(ops);
    var db, acc := State(ops), Accepted(ops);
    var c :| c in db.checks && CurrentBad(db.latest)(c) && c.Key() == k;
    var a := RowOfNewest(db, acc, c);
    CheckRowShows(a, c);
    OpenLabelsAreNewestFailures(ops, a, k.name);
  }

  lemma CheckRowShows(a: Arrival, c: CheckRow)
    requires c in CheckRowsOf(a) && c.check.verdict.Bad()
    ensures a.Shows(c.check.name)
  {
    var j := RowIndex(a, c);
    assert a.upload.checks[j] == c.check;
  }

  lemma OpenIsFailing(ops: seq<Op>, k: Identity)
    requires NoneSwept(State(ops), Accepted(ops), k.producer)
    requires forall a :: a in Of(Accepted(ops), k.producer) ==> CarriesOnce(a, k.name)
    requires k in State(ops).since
    ensures FailingNow(State(ops), k)
  {
    hide State, Records, NoneSwept, CarriesOnce;
    Reachable(ops);
    var db, acc := State(ops), Accepted(ops);
    SilentProducerHasNoOpenLabels(ops, k);
    var a := NewestExists(db, acc, k.producer);
    OpenLabelsAreNewestFailures(ops, a, k.name);
    OfMember(acc, k.producer, a);
    var c := RowOfReport(db, acc, k, a);
    assert CurrentBad(db.latest)(c);
  }
}
