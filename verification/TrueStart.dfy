/** When the stored start of a run is the fault's true start, whatever order the reports
    came in: the start over everything the producer sent, by collection and not by arrival. */
module TrueStart {
  import opened ReportTypes
  import opened Sequences
  import opened Tables
  import opened Runs
  import opened Summaries
  import Text

  // ---- the two starts ------------------------------------------------------------------------

  /** `y` is `x` or ranks above it. */
  predicate AtOrAfter(x: Arrival, y: Arrival) {
    y == x || Newer(y.Stamp(), x.Stamp())
  }

  /** From `x` on, every report shows the label, by rank and not by arrival. */
  ghost predicate FailingFrom(xs: seq<Arrival>, name: string, x: Arrival) {
    x in xs && forall y :: y in xs && AtOrAfter(x, y) ==> y.Shows(name)
  }

  /** The oldest such report: the fault's true start. */
  ghost predicate IsTrueStart(xs: seq<Arrival>, name: string, x: Arrival) {
    FailingFrom(xs, name, x) && forall y :: FailingFrom(xs, name, y) ==> AtOrAfter(x, y)
  }

  /** The run the server keeps begins with `x`. */
  predicate KeptFrom(rs: seq<Arrival>, name: string, x: Arrival) {
    var k := RunStart(rs, name);
    k < |rs| && rs[k] == x
  }

  /** On its arrival behind `earlier`, `x` was the newest and the label was not open. */
  predicate Opened(earlier: seq<Arrival>, name: string, x: Arrival) {
    IsRecord(earlier, x) && (Records(earlier) == [] || !Last(Records(earlier)).Shows(name))
  }

  // ---- records and the positions they come from --------------------------------------------------

  lemma {:induction false} RecordsOfPrefix(xs: seq<Arrival>, i: nat)
    requires i <= |xs|
    ensures Records(xs[..i]) <= Records(xs)
  {
    if i < |xs| {
      var init := xs[..|xs| - 1];
      RecordsOfPrefix(init, i);
      assert init[..i] == xs[..i];
    } else {
      assert xs[..i] == xs;
    }
  }

  /** The `j`th record was accepted at some position, where the earlier records stood before it. */
  lemma {:induction false} RecordOrigin(xs: seq<Arrival>, j: nat) returns (i: nat)
    requires j < |Records(xs)|
    ensures i < |xs| && xs[i] == Records(xs)[j] && IsRecord(xs[..i], xs[i])
    ensures Records(xs[..i]) == Records(xs)[..j]
  {
    var init := xs[..|xs| - 1];
    if j < |Records(init)| {
      i := RecordOrigin(init, j);
      assert init[..i] == xs[..i];
    } else {
      i := |xs| - 1;
    }
  }

  lemma UniqueSuffixStart(rs: seq<Arrival>, name: string, k: nat)
    requires IsLongestFailingSuffix(rs, name, k)
    ensures RunStart(rs, name) == k
  {
    RunStartIsLongest(rs, name);
  }

  /** The run is kept from the true start exactly when that report, on its arrival, was the
      newest and found the label not open. */
  lemma KeptExactlyWhenOpened(xs: seq<Arrival>, name: string, i: nat)
    requires i < |xs| && IsTrueStart(xs, name, xs[i])
    requires forall m, n :: 0 <= m < n < |xs| ==> xs[m] != xs[n]
    ensures KeptFrom(Records(xs), name, xs[i]) <==> Opened(xs[..i], name, xs[i])
  {
    hide Records, RunStart, FailingFrom;
    if KeptFrom(Records(xs), name, xs[i]) {
      KeptIsOpened(xs, name, i);
    }
    if Opened(xs[..i], name, xs[i]) {
      OpenedIsKept(xs, name, i);
    }
  }

  lemma KeptIsOpened(xs: seq<Arrival>, name: string, i: nat)
    requires i < |xs| && KeptFrom(Records(xs), name, xs[i])
    requires forall m, n :: 0 <= m < n < |xs| ==> xs[m] != xs[n]
    ensures Opened(xs[..i], name, xs[i])
  {
    var k := RunStart(Records(xs), name);
    hide Records, RunStart, IsRecord, Arrival.Shows;
    BeforeRunStart(Records(xs), name);
    var m := RecordOrigin(xs, k);
    assert m == i;
  }

  lemma BeforeRunStart(rs: seq<Arrival>, name: string)
    ensures var k := RunStart(rs, name); k == 0 || !Last(rs[..k]).Shows(name)
  {
    RunStartIsLongest(rs, name);
  }

  lemma OpenedIsKept(xs: seq<Arrival>, name: string, i: nat)
    requires i < |xs| && FailingFrom(xs, name, xs[i]) && Opened(xs[..i], name, xs[i])
    ensures KeptFrom(Records(xs), name, xs[i])
  {
    hide Records, RunStart;
    var rs, before := Records(xs), Records(xs[..i]);
    var p := |before|;
    RecordStaysAt(xs, i);
    forall j | p <= j < |rs| ensures rs[j].Shows(name) {
      RecordsIncrease(xs);
      RecordsAreOf(xs);
      assert AtOrAfter(xs[i], rs[j]);
    }
    UniqueSuffixStart(rs, name, p);
  }

  /** A record stands behind the records that were there when it arrived. */
  lemma RecordStaysAt(xs: seq<Arrival>, i: nat)
    requires i < |xs| && IsRecord(xs[..i], xs[i])
    ensures var p := |Records(xs[..i])|;
      p < |Records(xs)| && Records(xs)[p] == xs[i] && Records(xs)[..p] == Records(xs[..i])
  {
    assert xs[..i + 1] == xs[..i] + [xs[i]];
    RecordsSnoc(xs[..i], xs[i]);
    RecordsOfPrefix(xs, i + 1);
  }

  // ---- in a run of operations -------------------------------------------------------------------

  /** The `n`th operation stores the upload `a`. */
  ghost predicate Stores(ops: seq<Op>, n: nat, a: Arrival) {
    n < |ops| && ops[n] == Ingest(a) && Tables.Valid(a) && a.upload.id !in State(ops[..n]).reports
  }

  /** What `ingest` can see when `a` arrives: it takes the pointer, and the label is not open. */
  predicate OpensRun(db: Db, a: Arrival, name: string) {
    (a.From() in db.latest ==> Newer(a.Stamp(), db.latest[a.From()])) && Identity(a.From(), name) !in db.since
  }

  /** It is accepted behind everything accepted before it. */
  lemma StoredIsAccepted(ops: seq<Op>, n: nat, a: Arrival)
    requires Stores(ops, n, a)
    ensures Accepted(ops[..n]) + [a] <= Accepted(ops)
  {
    hide Tables.Valid, Apply;
    Reachable(ops[..n]);
    assert ops[..n + 1][..n] == ops[..n];
    AcceptedGrows(ops, n + 1);
  }

  /** Where it stands among its producer's. */
  lemma StoredPosition(ops: seq<Op>, n: nat, a: Arrival)
    requires Stores(ops, n, a)
    ensures var xs, i := Of(Accepted(ops), a.From()), |Of(Accepted(ops[..n]), a.From())|;
      i < |xs| && xs[i] == a && xs[..i] == Of(Accepted(ops[..n]), a.From())
  {
    var pre := Accepted(ops[..n]);
    hide Stores;
    StoredIsAccepted(ops, n, a);
    PositionOf(pre, Accepted(ops), a);
  }

  lemma PositionOf(pre: seq<Arrival>, acc: seq<Arrival>, a: Arrival)
    requires pre + [a] <= acc
    ensures var xs, i := Of(acc, a.From()), |Of(pre, a.From())|;
      i < |xs| && xs[i] == a && xs[..i] == Of(pre, a.From())
  {
    var rest := acc[|pre| + 1..];
    assert acc == pre + [a] + rest;
    OfSnoc(pre, a, a.From());
    FilterAppend(pre + [a], rest, SentBy(a.From()));
  }

  /** The stored pointer and the open labels tell whether a run opens. */
  lemma OpensIffOpened(ops: seq<Op>, a: Arrival, name: string)
    ensures OpensRun(State(ops), a, name) <==> Opened(Of(Accepted(ops), a.From()), name, a)
  {
    hide State, Records, Of;
    Reachable(ops);
    var db, xs := State(ops), Of(Accepted(ops), a.From());
    assert Matches(db.latest, a.From(), Records(xs));
    assert OpenAsSpecified(db.since, Identity(a.From(), name), Records(xs));
    RunStartIsLongest(Records(xs), name);
    if xs == [] {
      NothingRecorded();
    } else {
      RecordIffNewerThanLast(xs, a);
    }
  }

  lemma NothingRecorded()
    ensures Records([]) == []
  {}

  lemma {:induction false} AcceptedDistinct(ops: seq<Op>, who: Producer)
    ensures var xs := Of(Accepted(ops), who);
      forall i, j :: 0 <= i < j < |xs| ==> xs[i].upload.id != xs[j].upload.id
  {
    Reachable(ops);
    FilterKeepsDistinct(Accepted(ops), SentBy(who));
  }

  lemma {:induction false} FilterKeepsDistinct(acc: seq<Arrival>, keep: Arrival -> bool)
    requires DistinctIds(acc)
    ensures DistinctIds(Filter(acc, keep))
  {
    if acc != [] {
      var init := acc[..|acc| - 1];
      FilterKeepsDistinct(init, keep);
      forall x | x in Filter(init, keep) ensures x.upload.id != Last(acc).upload.id {
        FilterMember(init, keep, x);
      }
    }
  }

  // ---- the main result -------------------------------------------------------------------------------

  /** However a producer's reports were delivered, the run is kept from the fault's true start
      exactly when that report took the pointer on its arrival and found the label not open.
      The stored time is then the true one; and if no other report of the producer has that
      collection time, it is the true one only then. */
  lemma TrueStartKeptExactly(ops: seq<Op>, n: nat, a: Arrival, name: string)
    requires Stores(ops, n, a) && IsTrueStart(Of(Accepted(ops), a.From()), name, a)
    ensures var xs := Of(Accepted(ops), a.From()); var k := Identity(a.From(), name); var since := State(ops).since;
      (KeptFrom(Records(xs), name, a) <==> OpensRun(State(ops[..n]), a, name))
      && k in since
      && (OpensRun(State(ops[..n]), a, name) ==> since[k] == a.upload.collectedAt)
      && ((forall x :: x in xs && x.upload.collectedAt == a.upload.collectedAt ==> x == a) ==>
            (since[k] == a.upload.collectedAt <==> OpensRun(State(ops[..n]), a, name)))
  {
    hide State, Records, Of;
    var xs, i := Of(Accepted(ops), a.From()), |Of(Accepted(ops[..n]), a.From())|;
    StoredPosition(ops, n, a);
    OpensIffOpened(ops[..n], a, name);
    AcceptedDistinct(ops, a.From());
    KeptExactlyWhenOpened(xs, name, i);
    RunStartIsLongest(Records(xs), name);
    FirstSeenIsRunStart(ops, Identity(a.From(), name), RunStart(Records(xs), name));
    LastRecordGreatest(xs);
    RecordsAreOf(xs);
    LastIsFailing(xs, name, a);
  }

  /** From a true start on, the greatest report shows the label. */
  lemma LastIsFailing(xs: seq<Arrival>, name: string, a: Arrival)
    requires xs != [] && FailingFrom(xs, name, a)
    requires forall i, j :: 0 <= i < j < |xs| ==> xs[i].upload.id != xs[j].upload.id
    ensures Records(xs) != [] && Last(Records(xs)).Shows(name)
  {
    LastRecordGreatest(xs);
    var r := Last(Records(xs));
    if r.Stamp() == a.Stamp() {
      var i :| 0 <= i < |xs| && xs[i] == r;
      var j :| 0 <= j < |xs| && xs[j] == a;
      assert i == j;
    }
  }

  // ---- every open label has one true start --------------------------------------------------------

  /** The oldest of the reports a suffix of the ranking may start from. */
  lemma {:induction false} OldestFailing(xs: seq<Arrival>, name: string, n: nat, some: Arrival) returns (a: Arrival)
    requires n <= |xs| && FailingFrom(xs, name, some)
    ensures FailingFrom(xs, name, a) && AtOrAfter(a, some)
    ensures forall i :: 0 <= i < n && FailingFrom(xs, name, xs[i]) ==> AtOrAfter(a, xs[i]) || a.Stamp() == xs[i].Stamp()
  {
    a := some;
    if n > 0 {
      a := OldestFailing(xs, name, n - 1, some);
      var x := xs[n - 1];
      if FailingFrom(xs, name, x) && Newer(a.Stamp(), x.Stamp()) {
        forall i | 0 <= i < n - 1 && FailingFrom(xs, name, xs[i]) ensures Newer(xs[i].Stamp(), x.Stamp()) {
          if Newer(xs[i].Stamp(), a.Stamp()) {
            NewerTransitive(xs[i].Stamp(), a.Stamp(), x.Stamp());
          }
        }
        if Newer(some.Stamp(), a.Stamp()) {
          NewerTransitive(some.Stamp(), a.Stamp(), x.Stamp());
        }
        a := x;
      } else if FailingFrom(xs, name, x) {
        NewerTotal(a.Stamp(), x.Stamp());
      }
    }
  }

  /** A label is open exactly when its fault has a true start, and then it has one. */
  lemma OpenExactlyWhenStarted(ops: seq<Op>, k: Identity)
    ensures var xs := Of(Accepted(ops), k.producer);
      (k in State(ops).since <==> exists a :: IsTrueStart(xs, k.name, a))
      && forall a, b :: IsTrueStart(xs, k.name, a) && IsTrueStart(xs, k.name, b) ==> a == b
  {
    hide State, Records, Of;
    var xs, rs := Of(Accepted(ops), k.producer), Records(Of(Accepted(ops), k.producer));
    RunStartIsLongest(rs, k.name);
    FirstSeenIsRunStart(ops, k, RunStart(rs, k.name));
    AcceptedDistinct(ops, k.producer);
    if k in State(ops).since {
      var a := StartOfOpen(xs, k.name);
    }
    if a :| IsTrueStart(xs, k.name, a) {
      LastIsFailing(xs, k.name, a);
    }
    forall a, b | IsTrueStart(xs, k.name, a) && IsTrueStart(xs, k.name, b) ensures a == b {
      NewerAsymmetric(a.Stamp(), b.Stamp());
    }
  }

  lemma StartOfOpen(xs: seq<Arrival>, name: string) returns (a: Arrival)
    requires forall i, j :: 0 <= i < j < |xs| ==> xs[i].upload.id != xs[j].upload.id
    requires Records(xs) != [] && Last(Records(xs)).Shows(name)
    ensures IsTrueStart(xs, name, a)
  {
    assert xs != [];
    LastRecordGreatest(xs);
    var last := Last(Records(xs));
    forall y | y in xs && AtOrAfter(last, y) ensures y == last {
      NewerAsymmetric(last.Stamp(), y.Stamp());
      SameStampSame(xs, last, y);
    }
    a := OldestFailing(xs, name, |xs|, last);
    forall y | FailingFrom(xs, name, y) ensures AtOrAfter(a, y) {
      var i :| 0 <= i < |xs| && xs[i] == y;
      SameStampSame(xs, a, y);
    }
  }

  lemma SameStampSame(xs: seq<Arrival>, x: Arrival, y: Arrival)
    requires forall i, j :: 0 <= i < j < |xs| ==> xs[i].upload.id != xs[j].upload.id
    requires x in xs && y in xs
    ensures x.Stamp() == y.Stamp() ==> x == y
  {
    var i :| 0 <= i < |xs| && xs[i] == x;
    var j :| 0 <= j < |xs| && xs[j] == y;
  }

  // ---- in-order and late delivery ---------------------------------------------------------------------

  /** In order, the longest failing suffix of everything sent starts where the fault did. */
  lemma InOrderTrueStart(xs: seq<Arrival>, name: string, start: nat)
    requires forall i, j :: 0 <= i < j < |xs| ==> Newer(xs[j].Stamp(), xs[i].Stamp())
    requires IsLongestFailingSuffix(xs, name, start) && start < |xs|
    ensures IsTrueStart(xs, name, xs[start])
  {
    forall y | y in xs && AtOrAfter(xs[start], y) ensures y.Shows(name) {
      var j :| 0 <= j < |xs| && xs[j] == y;
      if j < start {
        NewerAsymmetric(xs[start].Stamp(), xs[j].Stamp());
      }
    }
    forall y | FailingFrom(xs, name, y) ensures AtOrAfter(xs[start], y) {
      var j :| 0 <= j < |xs| && xs[j] == y;
      if j < start {
        assert xs[start - 1] in xs && AtOrAfter(y, xs[start - 1]);
      }
    }
  }

  /** With in-order delivery every report takes the pointer, so the condition is always met: the
      run is dated from the first report of the longest failing suffix of everything sent. */
  lemma InOrderStartIsTrue(ops: seq<Op>, k: Identity, start: nat)
    requires var xs := Of(Accepted(ops), k.producer);
      (forall i, j :: 0 <= i < j < |xs| ==> Newer(xs[j].Stamp(), xs[i].Stamp()))
      && IsLongestFailingSuffix(xs, k.name, start)
    ensures var since := State(ops).since; var xs := Of(Accepted(ops), k.producer);
      (k in since <==> start < |xs|)
      && (k in since ==> since[k] == xs[start].upload.collectedAt && IsTrueStart(xs, k.name, xs[start]))
  {
    hide State, Of, Records;
    var xs := Of(Accepted(ops), k.producer);
    RunStartIsLongest(Records(xs), k.name);
    FirstSeenIsRunStart(ops, k, RunStart(Records(xs), k.name));
    if start < |xs| {
      InOrderTrueStart(xs, k.name, start);
      InOrderKept(xs, k.name, start);
    } else {
      InOrderAllRecords(xs);
      UniqueSuffixStart(xs, k.name, start);
    }
  }

  lemma InOrderKept(xs: seq<Arrival>, name: string, start: nat)
    requires forall i, j :: 0 <= i < j < |xs| ==> Newer(xs[j].Stamp(), xs[i].Stamp())
    requires IsLongestFailingSuffix(xs, name, start) && start < |xs| && IsTrueStart(xs, name, xs[start])
    ensures KeptFrom(Records(xs), name, xs[start])
  {
    hide Records, KeptFrom, IsTrueStart;
    InOrderAllRecords(xs[..start]);
    assert Opened(xs[..start], name, xs[start]);
    forall i, j | 0 <= i < j < |xs| ensures xs[i] != xs[j] {
      NewerAsymmetric(xs[i].Stamp(), xs[j].Stamp());
    }
    KeptExactlyWhenOpened(xs, name, start);
  }

  /** The start depends on the order of delivery: of two failures of a label, the first a
      producer ever sent, the older one dates the fault if it arrives first, and the newer one
      if it does not. */
  lemma LateDeliveryMovesTheStart(ops: seq<Op>, a: Arrival, b: Arrival, name: string)
    requires Tables.Valid(a) && Tables.Valid(b) && a.From() == b.From() && Newer(b.Stamp(), a.Stamp())
    requires a.upload.id != b.upload.id && a.Shows(name) && b.Shows(name)
    requires var db := State(ops); a.From() !in db.latest && a.upload.id !in db.reports && b.upload.id !in db.reports
    ensures var k := Identity(a.From(), name);
      var inOrder, late := State(ops + [Ingest(a)] + [Ingest(b)]).since, State(ops + [Ingest(b)] + [Ingest(a)]).since;
      k in inOrder && inOrder[k] == a.upload.collectedAt && k in late && late[k] == b.upload.collectedAt
  {
    hide State, Tables.Valid;
    var db, k := State(ops), Identity(a.From(), name);
    if k in db.since {
      SilentProducerHasNoOpenLabels(ops, k);
    }
    NewerAsymmetric(b.Stamp(), a.Stamp());
    RunSnoc(ops, Ingest(a));
    RunSnoc(ops + [Ingest(a)], Ingest(b));
    RunSnoc(ops, Ingest(b));
    RunSnoc(ops + [Ingest(b)], Ingest(a));
    FirstFailureOpens(db, a, name);
    FirstFailureOpens(db, b, name);
    ShowsIffBadKey(b, k);
    var one := AfterIngest(db, a);
    assert AfterIngest(one, b).since == Reopen(one.since, b);
  }

  lemma FirstFailureOpens(db: Db, a: Arrival, name: string)
    requires Tables.Valid(a) && a.upload.id !in db.reports && a.From() !in db.latest && a.Shows(name)
    requires Identity(a.From(), name) !in db.since
    ensures var k := Identity(a.From(), name); var db' := AfterIngest(db, a);
      k in db'.since && db'.since[k] == a.upload.collectedAt
      && a.From() in db'.latest && db'.latest[a.From()] == a.Stamp()
      && db'.reports.Keys == db.reports.Keys + {a.upload.id}
  {
    ShowsIffBadKey(a, Identity(a.From(), name));
    assert AfterIngest(db, a).since == Reopen(db.since, a);
  }

  function Failing(name: string): Check {
    Check("s", name, None, Fail, None, None, None, None, None, None)
  }

  function SingleFailure(id: string, at: Time): Arrival {
    Arrival("h", Upload(1, id, "c", at, None, None, [Failing("l")]), true, "", 0)
  }

  lemma SingleFailureShows(id: string, at: Time)
    ensures Tables.Valid(SingleFailure(id, at)) && SingleFailure(id, at).Shows("l")
  {
    assert Text.Trim("c") == "c" && Text.Trim("l") == "l";
    assert SingleFailure(id, at).upload.checks[0] == Failing("l");
  }

  /** An input on which the kept start is not the true one. */
  lemma LateDeliveryExample()
    ensures var a, b := SingleFailure("A", 1), SingleFailure("B", 2); var k := Identity(Producer("h", "c"), "l");
      var late := State([Ingest(b), Ingest(a)]).since;
      k in late && late[k] == 2 && IsTrueStart([b, a], "l", a)
  {
    hide State, Tables.Valid;
    var a, b := SingleFailure("A", 1), SingleFailure("B", 2);
    SingleFailureShows("A", 1);
    SingleFailureShows("B", 2);
    EmptyState();
    LateDeliveryMovesTheStart([], a, b, "l");
    assert [] + [Ingest(b)] + [Ingest(a)] == [Ingest(b), Ingest(a)];
    TrueStartOfTwo(a, b, "l");
  }

  lemma EmptyState()
    ensures State([]) == EMPTY
  {}

  lemma TrueStartOfTwo(a: Arrival, b: Arrival, name: string)
    requires a.Shows(name) && b.Shows(name) && Newer(b.Stamp(), a.Stamp())
    ensures IsTrueStart([b, a], name, a)
  {
    assert a in [b, a];
  }
}
