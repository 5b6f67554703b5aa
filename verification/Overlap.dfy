/** A reachable state in which two mutes on one check change what the overview says of another. */
module Overlap {
  import opened Agreement
  import opened ReportTypes
  import opened Runs
  import opened Sequences
  import opened Summaries
  import opened Tables
  import opened TrueStart
  import opened Views
  import Text
  import Utf8

  /** A report with two failing checks. */
  function TwoFailures(): Arrival {
    Arrival("h", Upload(1, "A", "c", 0, None, None, [Failing("x"), Failing("y")]), true, "", 0)
  }

  function Request(): NewMute {
    NewMute("h", "c", "x", "known", 1)
  }

  /** Its first check is muted twice. */
  function MutedTwice(): seq<Op> {
    [Ingest(TwoFailures())] + [CreateMute(Request(), "me", "m1", 0)] + [CreateMute(Request(), "me", "m2", 0)]
  }

  function MuteOfX(id: string): Mute {
    Mute(id, Identity(Producer("h", "c"), "x"), "known", "me", 0, MS_PER_HOUR)
  }

  lemma TwoFailuresValid()
    ensures Tables.Valid(TwoFailures())
  {
    assert Text.Trim("c") == "c" && Text.Trim("x") == "x" && Text.Trim("y") == "y";
    hide Text.Trim, Utf8.Encode;
    OneByte("s");
    OneByte("x");
    OneByte("y");
    assert ChecksRefusal(TwoFailures().upload.checks, 2).None?;
  }

  lemma OneByte(s: string)
    requires |s| == 1 && s[0] < 0x80 as char
    ensures |Utf8.Encode(s)| == 1
  {
    assert s[1..] == [];
  }

  /** A report arriving at empty tables. */
  lemma FirstReport(a: Arrival)
    requires Tables.Valid(a)
    ensures State([Ingest(a)]) == AfterIngest(EMPTY, a) && Accepted([Ingest(a)]) == [a]
    ensures State([Ingest(a)]).mutes == []
    ensures IsNewest(State([Ingest(a)]), [a], a) && Unswept(State([Ingest(a)]), a)
  {
    hide Tables.Valid;
    assert [Ingest(a)][..0] == [];
    assert State([Ingest(a)]) == AfterIngest(EMPTY, a);
    RowsAfterIngest(EMPTY, a, a.upload.id);
    assert a in [a];
  }

  lemma OneMoreMute(ops: seq<Op>, req: NewMute, id: string, a: Arrival)
    requires MuteAcceptable(req) && forall m :: m in State(ops).mutes ==> m.id != id
    requires IsNewest(State(ops), Accepted(ops), a) && Unswept(State(ops), a)
    ensures var ops' := ops + [CreateMute(req, "me", id, 0)];
      State(ops').mutes == State(ops).mutes + [MuteOf(req, "me", id, 0)]
      && IsNewest(State(ops'), Accepted(ops'), a) && Unswept(State(ops'), a)
  {
    hide State, MuteAcceptable;
    var op := CreateMute(req, "me", id, 0);
    RunSnoc(ops, op);
    assert (ops + [op])[..|ops|] == ops;
    FilterNone(State(ops).mutes, WithId(id));
  }

  lemma MutedTwiceState()
    ensures var db := State(MutedTwice()); var a := TwoFailures();
      IsNewest(db, Accepted(MutedTwice()), a) && Unswept(db, a) && db.mutes == [MuteOfX("m1"), MuteOfX("m2")]
  {
    hide State, Tables.Valid, IsNewest, Unswept;
    var a := TwoFailures();
    TwoFailuresValid();
    FirstReport(a);
    RequestIsGood();
    assert "m1"[1] == '1' && "m2"[1] == '2';
    OneMoreMute([Ingest(a)], Request(), "m1", a);
    OneMoreMute([Ingest(a)] + [CreateMute(Request(), "me", "m1", 0)], Request(), "m2", a);
  }

  lemma RequestIsGood()
    ensures MuteAcceptable(Request()) && forall id :: MuteOf(Request(), "me", id, 0) == MuteOfX(id)
  {
    assert Text.Trim("h") == "h" && Text.Trim("c") == "c" && Text.Trim("x") == "x" && Text.Trim("known") == "known";
  }

  /** The join counts the first check twice and the second not at all. */
  lemma JoinOfTwo(db: Db)
    requires Unswept(db, TwoFailures()) && db.mutes == [MuteOfX("m1"), MuteOfX("m2")]
    ensures Joined(db, TwoFailures(), Fail, 1) == 2 && DoublyMuted(db, 1, TwoFailures(), Fail)
  {
    var a := TwoFailures();
    assert a.source == "h" && a.upload.collector == "c" && a.From() == Producer("h", "c");
    assert a.upload.checks == [Failing("x"), Failing("y")];
    var rows := CheckRowsOf(a);
    var x, y := rows[0].Key(), rows[1].Key();
    assert rows[0].check == Failing("x") && rows[1].check == Failing("y");
    assert rows[0].producer == Producer("h", "c");
    assert x.name == "x" && y.name == "y" && "x"[0] != "y"[0];
    assert x == MuteOfX("m1").identity && y != x;
    Silencers(db.mutes, x);
    Silencers(db.mutes, y);
    assert MutedCount(rows[..0], db.mutes, Fail, 1) == 0;
    assert rows[..1][..0] == rows[..0] && Last(rows[..1]) == rows[0];
    assert MutedCount(rows[..1], db.mutes, Fail, 1) == 2;
    assert |rows| == 2;
    assert rows[0] in rows && !OnceAtMost(db, 1, Fail, rows[0]);
  }

  lemma Silencers(mutes: seq<Mute>, k: Identity)
    requires mutes == [MuteOfX("m1"), MuteOfX("m2")]
    ensures |Filter(mutes, Silencing(k, 1))| == if k == MuteOfX("m1").identity then 2 else 0
  {
    if k == MuteOfX("m1").identity {
      FilterAll(mutes, Silencing(k, 1));
    } else {
      FilterNone(mutes, Silencing(k, 1));
    }
  }

  lemma TwoFail()
    ensures CountOf(TwoFailures().upload.checks, Fail) == 2
  {
    FilterAll(TwoFailures().upload.checks, HasVerdict(Fail));
  }

  lemma NoPasses()
    ensures CountOf(TwoFailures().upload.checks, Pass) == 0 && CountOf(TwoFailures().upload.checks, Warn) == 0
  {
    FilterNone(TwoFailures().upload.checks, HasVerdict(Pass));
    FilterNone(TwoFailures().upload.checks, HasVerdict(Warn));
  }

  lemma SecondStaysOpen(db: Db)
    requires db.mutes == [MuteOfX("m1"), MuteOfX("m2")]
    ensures SomeCounts(db, 1, TwoFailures(), Fail)
  {
    assert "x"[0] != "y"[0];
    assert TwoFailures().upload.checks[1] == Failing("y");
    assert Agreement.Counts(db, 1, TwoFailures(), Failing("y"));
  }

  /** Two mutes on one failing check take the other, open one off the tile: it shows no failure
      and no colour while the problems view lists one. */
  lemma OverlapHidesAFailure()
    ensures var db := State(MutedTwice()); var a := TwoFailures();
      "A" in db.reports
      && DoublyMuted(db, 1, a, Fail)
      && |Filter(ProblemsAt(db, 1).checks, ProblemIs(a.From(), Fail))| > 0
      && var t := TileFor(db, "A", 1); t.fail == 0 && t.worst == Skip && !IsWorst(db, 1, a, t.worst)
  {
    hide State, IsNewest, ProblemsAt, Unswept, SomeCounts, IsWorst, DoublyMuted, Joined, MutedTwice;
    var ops, a := MutedTwice(), TwoFailures();
    var db := State(ops);
    MutedTwiceState();
    TileArithmetic(ops, 1, a);
    JoinOfTwo(db);
    TwoFail();
    NoPasses();
    SecondStaysOpen(db);
    OpenCounts(ops, 1, a, Fail);
    TileWorst(db, "A", 1);
    WorstExactly(ops, 1, a);
  }

  lemma TileWorst(db: Db, id: string, now: Time)
    requires id in db.reports
    ensures var t := TileFor(db, id, now); t.worst == WorstOf(t.fail, t.warn, t.pass)
  {
  }
}
