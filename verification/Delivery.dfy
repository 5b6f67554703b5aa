/** Delivery is confluent: what the tables hold depends on which uploads arrived, not on
    the order they arrived in or on how often each was replayed. */
module Delivery {
  import opened ReportTypes
  import opened Sequences
  import opened Tables
  import opened Runs
  import opened Summaries
  import opened Views
  import opened Agreement
  import opened Presentation
  import Text
  import Utf8

  // ---- what is accepted ---------------------------------------------------------------------

  /** A check that can be stored under its own identity. */
  predicate Addressable(c: Check) {
    Text.Trim(c.name) != "" && |Utf8.Encode(c.section)| <= 255 && |Utf8.Encode(c.name)| <= 255
  }

  /** The refusal says what is wrong with the `j`th check: first the label's blankness, then the
      section's length, then the label's. */
  ghost predicate NamesFault(c: Check, j: nat, why: Refusal) {
    match why
    case EmptyLabel(n) => n == j && Text.Trim(c.name) == ""
    case SectionTooLong(n) => n == j && Text.Trim(c.name) != "" && |Utf8.Encode(c.section)| > 255
    case LabelTooLong(n) =>
      n == j && Text.Trim(c.name) != "" && |Utf8.Encode(c.section)| <= 255 && |Utf8.Encode(c.name)| > 255
    case _ => false
  }

  lemma {:induction false} ChecksRefusedExactly(checks: seq<Check>, i: nat)
    requires i <= |checks|
    ensures ChecksRefusal(checks, i).None? <==> forall j :: i <= j < |checks| ==> Addressable(checks[j])
    ensures ChecksRefusal(checks, i).Some? ==>
      exists j :: i <= j < |checks| && NamesFault(checks[j], j, ChecksRefusal(checks, i).value)
                  && forall n :: i <= n < j ==> Addressable(checks[n])
    decreases |checks| - i
  {
    hide Utf8.Encode, Text.Trim;
    if i < |checks| {
      ChecksRefusedExactly(checks, i + 1);
      assert CheckRefusal(checks[i], i).None? <==> Addressable(checks[i]);
      assert CheckRefusal(checks[i], i).Some? ==> NamesFault(checks[i], i, CheckRefusal(checks[i], i).value);
    }
  }

  /** An upload is accepted exactly when its schema, id and collector are good and every check
      is addressable; otherwise the refusal names the first thing wrong. */
  lemma AcceptedExactly(a: Arrival)
    ensures Valid(a) <==>
      a.upload.schema == 1 && a.idIsUlid && Text.Trim(a.upload.collector) != ""
      && forall i :: 0 <= i < |a.upload.checks| ==> Addressable(a.upload.checks[i])
    ensures !Valid(a) ==>
      if a.upload.schema != 1 then RefusalOf(a) == Some(UnsupportedSchema)
      else if !a.idIsUlid then RefusalOf(a) == Some(NotAUlid)
      else if Text.Trim(a.upload.collector) == "" then RefusalOf(a) == Some(EmptyCollector)
      else exists j :: 0 <= j < |a.upload.checks| && NamesFault(a.upload.checks[j], j, RefusalOf(a).value)
                       && forall n :: 0 <= n < j ==> Addressable(a.upload.checks[n])
  {
    ChecksRefusedExactly(a.upload.checks, 0);
  }

  /** What the producer is told, against what happened to the tables: a refusal changes nothing and
      gives the reason; an acknowledgement repeats the id, says `duplicate` exactly when no report
      was added, and counts the check rows added. */
  lemma AnswerTells(db: Db, a: Arrival)
    ensures var db' := AfterIngest(db, a);
      match IngestResult(db, a)
      case Err(e) => !Valid(a) && RefusalOf(a).Some? && e == Unprocessable(RefusalOf(a).value) && db' == db
      case Ok(ack) =>
        Valid(a) && ack.id == a.upload.id && a.upload.id in db'.reports
        && (ack.duplicate <==> db'.reports.Keys == db.reports.Keys) && (ack.duplicate ==> db' == db)
        && ack.checks == |db'.checks| - |db.checks|
  {
    hide RefusalOf;
    var ids := db.reports.Keys;
    assert a.upload.id in ids ==> ids + {a.upload.id} == ids;
  }

  // ---- confluence ----------------------------------------------------------------------------

  /** Whatever else is done, nothing is swept. */
  predicate SweepFree(ops: seq<Op>) {
    forall i :: 0 <= i < |ops| ==> !ops[i].Sweep?
  }

  ghost predicate Delivers(ops: seq<Op>, a: Arrival) {
    Ingest(a) in ops && Valid(a)
  }

  /** Everything valid that was delivered, as (source, upload, body). */
  ghost predicate DeliversContent(ops: seq<Op>, c: (string, Upload, string)) {
    exists a :: Delivers(ops, a) && a.Content() == c
  }

  /** Equal ids mean equal uploads, from the same producer. */
  ghost predicate IdsNameContents(ops: seq<Op>, ops': seq<Op>) {
    forall a, b :: Delivers(ops + ops', a) && Delivers(ops + ops', b) && a.upload.id == b.upload.id ==>
      a.Content() == b.Content()
  }

  ghost predicate SameContents(ops: seq<Op>, ops': seq<Op>) {
    forall c :: DeliversContent(ops, c) <==> DeliversContent(ops', c)
  }

  /** The same facts, up to the server's clock and the order check rows were written in. */
  ghost predicate SameFacts(db: Db, db': Db) {
    && db.reports.Keys == db'.reports.Keys
    && (forall id :: id in db.reports ==> db.reports[id].(receivedAt := 0) == db'.reports[id].(receivedAt := 0))
    && multiset(db.checks) == multiset(db'.checks)
    && db.latest == db'.latest
    && db.since.Keys == db'.since.Keys
  }

  /** Nothing has been swept: every row is as its arrival wrote it. */
  ghost predicate Intact(db: Db, acc: seq<Arrival>) {
    forall i :: 0 <= i < |acc| ==> IntactOne(db, acc[i])
  }

  ghost predicate IntactOne(db: Db, a: Arrival) {
    a.upload.id in db.reports && db.reports[a.upload.id] == RowOf(a) && RowsOf(db, a.upload.id) == CheckRowsOf(a)
  }

  lemma IngestKeepsIntact(db: Db, acc: seq<Arrival>, a: Arrival)
    requires db.reports.Keys == Ids(acc) && Intact(db, acc) && ChecksMatch(db, acc)
    requires Valid(a) && a.upload.id !in Ids(acc)
    ensures Intact(AfterIngest(db, a), acc + [a])
  {
    IdsSnoc(acc, a);
    forall i | 0 <= i < |acc + [a]| ensures IntactOne(AfterIngest(db, a), (acc + [a])[i]) {
      var b := (acc + [a])[i];
      RowsAfterIngest(db, a, b.upload.id);
      if i < |acc| {
        assert IntactOne(db, acc[i]);
      } else {
        FilterNone(db.checks, OfReport(a.upload.id));
      }
    }
  }

  lemma OthersKeepIntact(db: Db, acc: seq<Arrival>, op: Op)
    requires Intact(db, acc) && (op.CreateMute? || op.DeleteMute? || op.Retire? || op.Unretire?)
    ensures Intact(Apply(db, op), acc)
  {
    OverlaysLeaveFacts(db, op);
    var db' := Apply(db, op);
    forall i | 0 <= i < |acc| ensures IntactOne(db', acc[i]) {
      assert IntactOne(db, acc[i]) && RowsOf(db', acc[i].upload.id) == RowsOf(db, acc[i].upload.id);
    }
  }

  lemma {:induction false} SweepFreeIsIntact(ops: seq<Op>)
    requires SweepFree(ops)
    ensures Intact(State(ops), Accepted(ops))
  {
    if ops != [] {
      var init, op := ops[..|ops| - 1], Last(ops);
      SweepFreeIsIntact(init);
      Reachable(init);
      if op.Ingest? {
        if Valid(op.a) && op.a.upload.id !in Ids(Accepted(init)) {
          IngestKeepsIntact(State(init), Accepted(init), op.a);
        }
      } else if op.Rebuild? {
        RebuildIsIdle(init);
      } else {
        OthersKeepIntact(State(init), Accepted(init), op);
      }
    }
  }

  /** Every valid delivery is stored under its id, and only deliveries are stored. */
  lemma {:induction false} AcceptedAreDelivered(ops: seq<Op>)
    ensures forall a :: a in Accepted(ops) ==> Delivers(ops, a)
    ensures forall a :: Delivers(ops, a) ==> a.upload.id in Ids(Accepted(ops))
  {
    if ops != [] {
      var init := ops[..|ops| - 1];
      AcceptedAreDelivered(init);
      assert ops == init + [Last(ops)];
      if Last(ops).Ingest? {
        IdsSnoc(Accepted(init), Last(ops).a);
      }
    }
  }

  /** Two stored arrivals, one in each history, under one id carry the same content. */
  lemma Counterpart(ops: seq<Op>, ops': seq<Op>, a: Arrival) returns (b: Arrival)
    requires IdsNameContents(ops, ops') && SameContents(ops, ops')
    requires a in Accepted(ops)
    ensures b in Accepted(ops') && b.Content() == a.Content()
  {
    AcceptedAreDelivered(ops);
    AcceptedAreDelivered(ops');
    assert DeliversContent(ops, a.Content());
    var c :| Delivers(ops', c) && c.Content() == a.Content();
    var i :| 0 <= i < |Accepted(ops')| && Accepted(ops')[i].upload.id == c.upload.id;
    b := Accepted(ops')[i];
    assert Delivers(ops', b);
    assert Delivers(ops + ops', b) && Delivers(ops + ops', c);
  }

  lemma SameContentSameRows(a: Arrival, b: Arrival)
    requires a.Content() == b.Content()
    ensures RowOf(a).(receivedAt := 0) == RowOf(b).(receivedAt := 0)
    ensures CheckRowsOf(a) == CheckRowsOf(b)
    ensures a.From() == b.From() && a.Stamp() == b.Stamp()
    ensures forall name :: a.Shows(name) == b.Shows(name)
  {
  }

  lemma StoredAlike(ops: seq<Op>, ops': seq<Op>, id: string)
    requires SweepFree(ops) && SweepFree(ops')
    requires IdsNameContents(ops, ops') && SameContents(ops, ops')
    requires id in State(ops).reports
    ensures id in State(ops').reports
    ensures State(ops).reports[id].(receivedAt := 0) == State(ops').reports[id].(receivedAt := 0)
    ensures RowsOf(State(ops), id) == RowsOf(State(ops'), id)
  {
    Reachable(ops);
    SweepFreeIsIntact(ops);
    SweepFreeIsIntact(ops');
    var i :| 0 <= i < |Accepted(ops)| && Accepted(ops)[i].upload.id == id;
    var b := Counterpart(ops, ops', Accepted(ops)[i]);
    SameContentSameRows(Accepted(ops)[i], b);
    assert IntactOne(State(ops), Accepted(ops)[i]);
    assert IntactOne(State(ops'), b);
  }

  lemma UnknownIdHasNoRows(ops: seq<Op>, id: string)
    requires id !in State(ops).reports
    ensures RowsOf(State(ops), id) == []
  {
    Reachable(ops);
    FilterNone(State(ops).checks, OfReport(id));
  }

  lemma ChecksAlike(ops: seq<Op>, ops': seq<Op>, x: CheckRow)
    requires RowsOf(State(ops), x.reportId) == RowsOf(State(ops'), x.reportId)
    ensures multiset(State(ops).checks)[x] == multiset(State(ops').checks)[x]
  {
    FilterMultiplicity(State(ops).checks, OfReport(x.reportId), x);
    FilterMultiplicity(State(ops').checks, OfReport(x.reportId), x);
  }

  lemma IdsNameContentsSymmetric(ops: seq<Op>, ops': seq<Op>)
    requires IdsNameContents(ops, ops')
    ensures IdsNameContents(ops', ops)
  {
    forall a | Delivers(ops' + ops, a) ensures Delivers(ops + ops', a) {
    }
  }

  lemma WindowReadsStamps(r: map<string, ReportRow>, r': map<string, ReportRow>)
    requires r.Keys == r'.Keys
    requires forall id :: id in r ==> r[id].(receivedAt := 0) == r'[id].(receivedAt := 0)
    ensures Window(r) == Window(r')
  {
    forall id | id in r
      ensures r[id].producer == r'[id].producer && StampIn(r, id) == StampIn(r', id)
    {
      assert r[id].(receivedAt := 0) == r'[id].(receivedAt := 0);
    }
    assert Producers(r) == Producers(r');
    forall who | who in Producers(r) ensures FirstRanked(r, who) == FirstRanked(r', who) {
      assert RanksFirst(r, FirstRanked(r', who));
      FirstUnique(r, who);
    }
  }

  lemma OpenAlike(ops: seq<Op>, ops': seq<Op>, k: Identity)
    requires SweepFree(ops) && SweepFree(ops')
    requires IdsNameContents(ops, ops') && SameContents(ops, ops')
    requires State(ops).latest == State(ops').latest
    requires k in State(ops).since
    ensures k in State(ops').since
  {
    Reachable(ops);
    Reachable(ops');
    SilentProducerHasNoOpenLabels(ops, k);
    var a := NewestExists(State(ops), Accepted(ops), k.producer);
    OpenLabelsAreNewestFailures(ops, a, k.name);
    var b := Counterpart(ops, ops', a);
    SameContentSameRows(a, b);
    OpenLabelsAreNewestFailures(ops', b, k.name);
  }

  /** The main result: two sequences delivering the same uploads end with the same facts, whatever
      else but sweeping is done in between. */
  lemma DeliveryIsConfluent(ops: seq<Op>, ops': seq<Op>)
    requires SweepFree(ops) && SweepFree(ops')
    requires IdsNameContents(ops, ops') && SameContents(ops, ops')
    ensures SameFacts(State(ops), State(ops'))
  {
    var db, db' := State(ops), State(ops');
    IdsNameContentsSymmetric(ops, ops');
    forall id | id in db.reports
      ensures id in db'.reports && db.reports[id].(receivedAt := 0) == db'.reports[id].(receivedAt := 0)
    {
      StoredAlike(ops, ops', id);
    }
    forall id | id in db'.reports ensures id in db.reports {
      StoredAlike(ops', ops, id);
    }
    forall x ensures multiset(db.checks)[x] == multiset(db'.checks)[x] {
      if x.reportId in db.reports {
        StoredAlike(ops, ops', x.reportId);
      } else {
        UnknownIdHasNoRows(ops, x.reportId);
        UnknownIdHasNoRows(ops', x.reportId);
      }
      ChecksAlike(ops, ops', x);
    }
    PointerIsTheWindow(ops);
    PointerIsTheWindow(ops');
    WindowReadsStamps(db.reports, db'.reports);
    forall k ensures k in db.since <==> k in db'.since {
      if k in db.since {
        OpenAlike(ops, ops', k);
      }
      if k in db'.since {
        OpenAlike(ops', ops, k);
      }
    }
  }

  lemma {:induction false} TilesAlike(ops: seq<Op>, ops': seq<Op>, order: seq<Producer>, now: Time)
    requires SweepFree(ops) && SweepFree(ops')
    requires IdsNameContents(ops, ops') && SameContents(ops, ops')
    requires State(ops).latest == State(ops').latest
    requires State(ops).mutes == State(ops').mutes
    requires forall p :: p in order ==> p in State(ops).latest
    ensures TilesFor(State(ops), order, now) == TilesFor(State(ops'), order, now)
  {
    if order != [] {
      TilesAlike(ops, ops', order[..|order| - 1], now);
      TileAlike(ops, ops', State(ops).latest[Last(order)], now);
    }
  }

  lemma TileAlike(ops: seq<Op>, ops': seq<Op>, p: Pointer, now: Time)
    requires SweepFree(ops) && SweepFree(ops')
    requires IdsNameContents(ops, ops') && SameContents(ops, ops')
    requires State(ops).mutes == State(ops').mutes
    ensures TileRow(State(ops), p, now) == TileRow(State(ops'), p, now)
  {
    hide State;
    IdsNameContentsSymmetric(ops, ops');
    if p.reportId in State(ops).reports {
      StoredAlike(ops, ops', p.reportId);
      var r, r' := State(ops).reports[p.reportId], State(ops').reports[p.reportId];
      assert r.(receivedAt := 0) == r'.(receivedAt := 0);
    } else if p.reportId in State(ops').reports {
      StoredAlike(ops', ops, p.reportId);
    }
  }

  /** And with the same mutes the overview shows the same tiles, at every instant. */
  lemma DeliveryShowsTheSameOverview(ops: seq<Op>, ops': seq<Op>, now: Time)
    requires SweepFree(ops) && SweepFree(ops')
    requires IdsNameContents(ops, ops') && SameContents(ops, ops')
    requires State(ops).mutes == State(ops').mutes
    ensures OverviewAt(State(ops), now) == OverviewAt(State(ops'), now)
  {
    DeliveryIsConfluent(ops, ops');
    TilesAlike(ops, ops', SortedProducers(State(ops).latest.Keys), now);
  }

  // ---- the problems view ------------------------------------------------------------------------

  /** Two problem rows of a reachable state never stand level in the view's order: at one
      producer, section and position there is one row. */
  lemma ProblemRowsDiffer(ops: seq<Op>, c: CheckRow, d: CheckRow)
    requires c in State(ops).checks && Pointed(State(ops).latest, c.reportId)
    requires d in State(ops).checks && Pointed(State(ops).latest, d.reportId)
    requires c.producer == d.producer && c.pos == d.pos
    ensures c == d
  {
    hide State, Accepted, Inv;
    Reachable(ops);
    var a := RowOfNewest(State(ops), Accepted(ops), c);
    var b := RowOfNewest(State(ops), Accepted(ops), d);
    NewestUnique(State(ops), Accepted(ops), a, b);
    CheckRowAt(a, c);
    CheckRowAt(a, d);
  }

  lemma NewestUnique(db: Db, acc: seq<Arrival>, a: Arrival, b: Arrival)
    requires Inv(db, acc) && IsNewest(db, acc, a) && IsNewest(db, acc, b) && a.From() == b.From()
    ensures a == b
  {
    NewestIsLastRecord(db, acc, a);
    NewestIsLastRecord(db, acc, b);
  }

  lemma CheckRowAt(a: Arrival, c: CheckRow)
    requires c in CheckRowsOf(a)
    ensures c.pos < |a.upload.checks| && c == CheckRowsOf(a)[c.pos]
  {
  }

  lemma ProblemRowsStrict(ops: seq<Op>)
    ensures StrictOn(Filter(State(ops).checks, CurrentBad(State(ops).latest)), RowOrder())
  {
    hide State;
    var db := State(ops);
    var bad := Filter(db.checks, CurrentBad(db.latest));
    forall c, d | c in bad && d in bad && RowOrder()(c, d) && RowOrder()(d, c) ensures c == d {
      FilterMember(db.checks, CurrentBad(db.latest), c);
      FilterMember(db.checks, CurrentBad(db.latest), d);
      SeverityDecides(c.check.verdict, d.check.verdict);
      ProducerBelowAsymmetric(c.producer, d.producer);
      Text.BelowAsymmetric(c.check.section, d.check.section);
      Text.BelowIrreflexive(c.check.section);
      ProblemRowsDiffer(ops, c, d);
    }
  }

  /** The same problem, but for when its run began. */
  predicate SameButForStart(p: ProblemCheck, q: ProblemCheck) {
    p.firstSeen.Some? == q.firstSeen.Some?
    && p.(firstSeen := None, confirmed := false) == q.(firstSeen := None, confirmed := false)
  }

  lemma SameRowsSameProblems(db: Db, db': Db, now: Time)
    requires ProblemRows(db) == ProblemRows(db') && OverviewAt(db, now) == OverviewAt(db', now)
    requires db.since.Keys == db'.since.Keys && db.mutes == db'.mutes && db.retirements == db'.retirements
    ensures var v, v' := ProblemsAt(db, now), ProblemsAt(db', now);
      |v.checks| == |v'.checks| && (forall i :: 0 <= i < |v.checks| ==> SameButForStart(v.checks[i], v'.checks[i]))
      && v.muted == v'.muted && v.stale == v'.stale && v.lapsing == v'.lapsing && v.returned == v'.returned
  {
    hide ProblemRows, OverviewAt, Filter, MutedChecks;
    assert ListMutes(db, now) == ListMutes(db', now);
  }

  /** With the same mutes and retirements as well, the problems view lists the same rows in the
      same order at every instant; only when a run began, and so whether it is confirmed, may
      depend on the order of delivery. */
  lemma DeliveryShowsTheSameProblems(ops: seq<Op>, ops': seq<Op>, now: Time)
    requires SweepFree(ops) && SweepFree(ops')
    requires IdsNameContents(ops, ops') && SameContents(ops, ops')
    requires State(ops).mutes == State(ops').mutes && State(ops).retirements == State(ops').retirements
    ensures var v, v' := ProblemsAt(State(ops), now), ProblemsAt(State(ops'), now);
      |v.checks| == |v'.checks| && (forall i :: 0 <= i < |v.checks| ==> SameButForStart(v.checks[i], v'.checks[i]))
      && v.muted == v'.muted && v.stale == v'.stale && v.lapsing == v'.lapsing && v.returned == v'.returned
  {
    hide State, OverviewAt, ProblemsAt, IdsNameContents, SameContents;
    var db, db' := State(ops), State(ops');
    DeliveryIsConfluent(ops, ops');
    DeliveryShowsTheSameOverview(ops, ops', now);
    FilterPermutes(db.checks, db'.checks, CurrentBad(db.latest));
    RowOrderTotal();
    ProblemRowsStrict(ops);
    SortAgrees(Filter(db.checks, CurrentBad(db.latest)), Filter(db'.checks, CurrentBad(db.latest)), RowOrder());
    SameRowsSameProblems(db, db', now);
  }
}
