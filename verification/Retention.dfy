/** What is left of an upload after any run: exactly what the sweeps since its arrival did not take. */
module Retention {
  import opened ReportTypes
  import opened Sequences
  import opened Tables
  import opened Runs
  import opened Summaries
  import opened Delivery
  import opened TrueStart

  /** Some sweep after the `n`th operation took the bodies of this age. */
  ghost predicate BodySwept(ops: seq<Op>, n: nat, receivedAt: Time) {
    exists m :: n < m < |ops| && ops[m].Sweep? && receivedAt < ops[m].rawCutoff
  }

  /** Some sweep after the `n`th operation took the check rows of this age. */
  ghost predicate ChecksSwept(ops: seq<Op>, n: nat, collectedAt: Time) {
    exists m :: n < m < |ops| && ops[m].Sweep? && collectedAt < ops[m].checkCutoff
  }

  /** The upload's row and its check rows stand as they should, bodies and checks swept or not. */
  ghost predicate Retains(db: Db, a: Arrival, body: bool, checks: bool) {
    a.upload.id in db.reports
    && db.reports[a.upload.id] == RowOf(a).(raw := if body then Some(a.raw) else None)
    && RowsOf(db, a.upload.id) == if checks then CheckRowsOf(a) else []
  }

  lemma RetainsStored(db: Db, a: Arrival)
    requires Tables.Valid(a) && a.upload.id !in db.reports && RowsOf(db, a.upload.id) == []
    ensures Retains(AfterIngest(db, a), a, true, true)
  {
    RowsAfterIngest(db, a, a.upload.id);
    assert [] + CheckRowsOf(a) == CheckRowsOf(a);
  }

  lemma RetainsStep(ops: seq<Op>, op: Op, a: Arrival, body: bool, checks: bool)
    requires Retains(State(ops), a, body, checks)
    ensures Retains(Apply(State(ops), op), a, body && !(op.Sweep? && a.receivedAt < op.rawCutoff),
                    checks && !(op.Sweep? && a.upload.collectedAt < op.checkCutoff))
  {
    hide State, CheckRowsOf;
    var db := State(ops);
    match op {
      case Ingest(b) =>
        if Tables.Valid(b) && b.upload.id !in db.reports {
          RowsAfterIngest(db, b, a.upload.id);
        }
      case Sweep(raw, cutoff) =>
        SweepTakesAllOrNone(db, a, raw, cutoff);
      case Rebuild =>
        RebuildIsIdle(ops);
      case _ =>
        OverlaysLeaveFacts(db, op);
        assert RowsOf(Apply(db, op), a.upload.id) == RowsOf(db, a.upload.id);
    }
  }

  /** After any run an upload stored by its `n`th operation has its report row; the body is there
      unless a later sweep's cutoff passed its receipt, and the check rows, all of them in upload
      order, unless a later sweep's cutoff passed its collection. */
  lemma {:induction false} RetainedExactly(ops: seq<Op>, n: nat, a: Arrival)
    requires Stores(ops, n, a)
    ensures Retains(State(ops), a, !BodySwept(ops, n, a.receivedAt), !ChecksSwept(ops, n, a.upload.collectedAt))
    decreases |ops|
  {
    hide State, Retains, Tables.Valid;
    var init, op := ops[..|ops| - 1], Last(ops);
    assert ops == init + [op];
    RunSnoc(init, op);
    if n == |init| {
      assert ops[..n] == init;
      UnknownIdHasNoRows(init, a.upload.id);
      RetainsStored(State(init), a);
    } else {
      assert ops[..n] == init[..n] && init[n] == ops[n];
      RetainedExactly(init, n, a);
      SweptSnoc(init, op, n, a);
      RetainsStep(init, op, a, !BodySwept(init, n, a.receivedAt), !ChecksSwept(init, n, a.upload.collectedAt));
    }
  }

  lemma SweptSnoc(init: seq<Op>, op: Op, n: nat, a: Arrival)
    requires n < |init|
    ensures BodySwept(init + [op], n, a.receivedAt) <==>
      BodySwept(init, n, a.receivedAt) || (op.Sweep? && a.receivedAt < op.rawCutoff)
    ensures ChecksSwept(init + [op], n, a.upload.collectedAt) <==>
      ChecksSwept(init, n, a.upload.collectedAt) || (op.Sweep? && a.upload.collectedAt < op.checkCutoff)
  {
    var ops := init + [op];
    assert ops[|init|] == op && forall m :: 0 <= m < |init| ==> ops[m] == init[m];
  }
}
