/** From a failing check to a woken phone: the store, the problems view, the notifiable set
    and the alert protocol composed, over any interleaving of server operations, clock ticks
    and polls. */
module EndToEnd {
  import opened ReportTypes
  import opened Sequences
  import opened Tables
  import opened Views
  import opened Runs
  import opened Summaries
  import opened Agreement
  import opened Silence
  import opened Overlays
  import opened Json
  import opened PhoneProblems
  import opened Alerting

  datatype Event = Do(op: Op) | Tick(ms: nat) | PhonePoll(posted: bool)

  /** The server's log and clock, and the polls the phone has made. */
  datatype World = World(ops: seq<Op>, now: Time, rounds: seq<Round>)

  // ---- over the wire ------------------------------------------------------------------------

  function WireCheck(): ProblemCheck -> Problem {
    (p: ProblemCheck) =>
      Problem(p.producer.source, p.producer.collector, p.section, p.name, p.verdict.Show(), p.observed, p.confirmed)
  }

  function WireTile(): Tile -> Stale {
    (t: Tile) => Stale(t.producer.source, t.producer.collector)
  }

  function OnThePhone(view: ProblemsView): Problems {
    Problems(Map(view.checks, WireCheck()), Map(view.stale, WireTile()), Map(view.returned, WireTile()))
  }

  /** What a poll at this moment decides on. */
  function AlertSet(ops: seq<Op>, now: Time): Problems {
    OnThePhone(ProblemsAt(State(ops), now)).Notifiable()
  }

  function Next(w: World, e: Event): World {
    match e
    case Do(op) => w.(ops := w.ops + [op])
    case Tick(ms) => w.(now := w.now + ms)
    case PhonePoll(posted) => w.(rounds := w.rounds + [Round(AlertSet(w.ops, w.now), posted)])
  }

  function Run(start: Time, events: seq<Event>): World {
    if events == [] then World([], start, [])
    else Next(Run(start, events[..|events| - 1]), Last(events))
  }

  // ---- a fault is confirmed by its second failing report -------------------------------------

  /** In a reachable state every problem row knows when its run began, and it is confirmed
      exactly when that was at a strictly earlier collection than the newest report's. */
  lemma ConfirmedExactly(ops: seq<Op>, c: CheckRow, start: nat)
    requires c in State(ops).checks && c.check.verdict.Bad() && Pointed(State(ops).latest, c.reportId)
    requires IsLongestFailingSuffix(Records(Of(Accepted(ops), c.producer)), c.check.name, start)
    ensures var rs := Records(Of(Accepted(ops), c.producer));
      var p := ProblemCheckOf(c, FirstSeen(State(ops).since, c));
      start < |rs| && p.firstSeen == Some(rs[start].upload.collectedAt)
      && (p.confirmed <==> rs[start].upload.collectedAt < Last(rs).upload.collectedAt)
  {
    hide State, Records, Of;
    Reachable(ops);
    var a := RowOfNewest(State(ops), Accepted(ops), c);
    NewestIsLastRecord(State(ops), Accepted(ops), a);
    var i :| 0 <= i < |CheckRowsOf(a)| && CheckRowsOf(a)[i] == c;
    assert a.upload.checks[i] == c.check;
    OpenLabelsAreNewestFailures(ops, a, c.check.name);
    FirstSeenIsRunStart(ops, c.Key(), start);
  }

  // ---- a standing failure is in the set --------------------------------------------------------

  /** The check at position `i` of a producer's newest report fails, has failed since a
      strictly earlier record, is not swept and not muted. */
  ghost predicate StandingFailure(ops: seq<Op>, now: Time, a: Arrival, i: nat, start: nat) {
    && IsNewest(State(ops), Accepted(ops), a) && Unswept(State(ops), a)
    && i < |a.upload.checks| && a.upload.checks[i].verdict == Verdict.Fail
    && (var rs := Records(Of(Accepted(ops), a.From()));
        IsLongestFailingSuffix(rs, a.upload.checks[i].name, start) && start < |rs|
        && rs[start].upload.collectedAt < a.upload.collectedAt)
    && forall m :: m in State(ops).mutes ==> !Covers(m, Identity(a.From(), a.upload.checks[i].name), now)
  }

  /** What the phone calls a check. */
  function Named(a: Arrival, c: Check): seq<string> {
    [a.source, a.upload.collector, c.section, c.name, c.verdict.Show()]
  }

  lemma FailureIsListed(ops: seq<Op>, now: Time, a: Arrival, i: nat, start: nat) returns (p: ProblemCheck)
    requires StandingFailure(ops, now, a, i, start)
    ensures p in ProblemsAt(State(ops), now).checks && p.confirmed && p.verdict == Verdict.Fail
    ensures CheckFields()(WireCheck()(p)) == Named(a, a.upload.checks[i])
  {
    hide State, Records;
    var db, k := State(ops), Identity(a.From(), a.upload.checks[i].name);
    var c := CheckRowsOf(a)[i];
    assert c in CheckRowsOf(a);
    FilterMember(db.checks, OfReport(a.upload.id), c);
    assert Pointed(db.latest, a.upload.id);
    EveryBadRowLandsOnce(db, now, c);
    FirstSeenIsRunStart(ops, k, start);
    p := ProblemCheckOf(c, FirstSeen(db.since, c));
  }

  /** It is in the notifiable set. */
  lemma FailureIsNotifiable(ops: seq<Op>, now: Time, a: Arrival, i: nat, start: nat)
    requires StandingFailure(ops, now, a, i, start)
    ensures Named(a, a.upload.checks[i]) in Map(AlertSet(ops, now).checks, CheckFields())
    ensures !AlertSet(ops, now).IsEmpty()
  {
    hide State, Records, ProblemsAt;
    var view := ProblemsAt(State(ops), now);
    var p := FailureIsListed(ops, now, a, i, start);
    var wired := Map(view.checks, WireCheck());
    var j :| 0 <= j < |view.checks| && view.checks[j] == p;
    assert wired[j] == WireCheck()(p);
    VerdictRoundTrip(p.verdict, WARN);
    FilterMember(wired, WorthWaking(), wired[j]);
    var waking := AlertSet(ops, now).checks;
    var n :| 0 <= n < |waking| && waking[n] == wired[j];
    assert Map(waking, CheckFields())[n] == Named(a, a.upload.checks[i]);
  }

  /** Conversely, nothing else wakes the phone: every check in the set names a stored, unmuted
      failure of a latest report whose run began strictly before that report. */
  lemma OnlyStandingFailuresWake(ops: seq<Op>, now: Time, p: Problem) returns (c: CheckRow)
    requires p in AlertSet(ops, now).checks
    ensures CheckFields()(p) == [c.producer.source, c.producer.collector, c.check.section, c.check.name, "fail"]
    ensures c in State(ops).checks && c.check.verdict == Verdict.Fail && Pointed(State(ops).latest, c.reportId)
    ensures forall m :: m in State(ops).mutes ==> !Covers(m, c.Key(), now)
    ensures c.Key() in State(ops).since && State(ops).since[c.Key()] < c.collectedAt
  {
    hide State, Records, ProblemsAt;
    var view := ProblemsAt(State(ops), now);
    var wired := Map(view.checks, WireCheck());
    FilterMember(wired, WorthWaking(), p);
    var j :| 0 <= j < |wired| && wired[j] == p;
    c := NothingIsInvented(State(ops), now, view.checks[j]);
    var rs := Records(Of(Accepted(ops), c.producer));
    RunStartIsLongest(rs, c.check.name);
    ConfirmedExactly(ops, c, RunStart(rs, c.check.name));
  }

  /** A producer is in the set as silent or as returned exactly when it is in the server's view. */
  lemma SilentOrReturnedIsNotifiable(ops: seq<Op>, now: Time, who: Producer)
    ensures InStale(State(ops), who, now) <==> Stale(who.source, who.collector) in AlertSet(ops, now).stale
    ensures InReturned(State(ops), who, now) <==> Stale(who.source, who.collector) in AlertSet(ops, now).returned
  {
    hide State, ProblemsAt;
    var view := ProblemsAt(State(ops), now);
    TilesOnTheWire(view.stale, who);
    TilesOnTheWire(view.returned, who);
  }

  lemma TilesOnTheWire(tiles: seq<Tile>, who: Producer)
    ensures Stale(who.source, who.collector) in Map(tiles, WireTile()) <==> exists t :: t in tiles && t.producer == who
  {
    if Stale(who.source, who.collector) in Map(tiles, WireTile()) {
      var i :| 0 <= i < |tiles| && WireTile()(tiles[i]) == Stale(who.source, who.collector);
      assert tiles[i] in tiles && tiles[i].producer == who;
    }
    if t :| t in tiles && t.producer == who {
      var i :| 0 <= i < |tiles| && tiles[i] == t;
      assert Map(tiles, WireTile())[i] == Stale(who.source, who.collector);
    }
  }

  // ---- and the phone says so --------------------------------------------------------------------

  /** From the `n`th poll on, none saw the same problems as `seen`. */
  ghost predicate NoneSaw(rounds: seq<Round>, n: nat, seen: Problems) {
    forall j: nat :: n <= j < |rounds| ==> !SameProblems(seen, rounds[j].alerting)
  }

  lemma {:induction false} RoundsGrow(start: Time, events: seq<Event>, later: seq<Event>)
    ensures Run(start, events).rounds <= Run(start, events + later).rounds
  {
    hide AlertSet, Run;
    if later == [] {
      assert events + later == events;
    } else {
      var init := later[..|later| - 1];
      RoundsGrow(start, events, init);
      assert events + later == events + init + [Last(later)];
      WorldSnoc(start, events + init, Last(later));
    }
  }

  lemma WorldSnoc(start: Time, events: seq<Event>, e: Event)
    ensures Run(start, events + [e]) == Next(Run(start, events), e)
  {
    assert (events + [e])[..|events|] == events;
  }

  /** A mark that does not name some problems does not come to name them while no poll sees them. */
  lemma {:induction false} MarkStaysOff(esc: Escape, rounds: seq<Round>, n: nat, seen: Problems)
    requires Conforming(esc) && n <= |rounds| && NoneSaw(rounds, n, seen) && !seen.IsEmpty()
    requires Mark(esc, rounds[..n]) != Fingerprint(esc, seen)
    ensures Mark(esc, rounds) != Fingerprint(esc, seen)
  {
    hide Fingerprint, SameProblems;
    if n == |rounds| {
      assert rounds[..n] == rounds;
    } else {
      var init, last := rounds[..|rounds| - 1], Last(rounds);
      assert init[..n] == rounds[..n];
      MarkStaysOff(esc, init, n, seen);
      FingerprintExact(esc, seen, last.alerting);
    }
  }

  /** A poll that sees a non-empty set ends with the mark naming that set, or it could not
      deliver and left the mark alone. */
  lemma PollTellsOrKeeps(esc: Escape, rounds: seq<Round>, r: Round)
    requires Conforming(esc) && !r.alerting.IsEmpty()
    ensures Mark(esc, rounds + [r]) == Fingerprint(esc, r.alerting)
         || (!r.posted && Mark(esc, rounds + [r]) == Mark(esc, rounds) != Fingerprint(esc, r.alerting))
  {
    assert (rounds + [r])[..|rounds|] == rounds;
  }

  /** The main result. Whatever happened before, a standing failure is in the set the poll
      decides on; after the poll either the phone's mark is that set's fingerprint, or nothing
      was delivered and the next poll to see the same problems fires, however the server moved
      and whatever else the phone polled in between. */
  lemma StandingFailureReachesThePhone(esc: Escape, start: Time, events: seq<Event>, posted: bool, later: seq<Event>,
                                       a: Arrival, i: nat, runStart: nat)
    requires Conforming(esc)
    requires var w := Run(start, events); StandingFailure(w.ops, w.now, a, i, runStart)
    requires var w := Run(start, events);
      NoneSaw(Run(start, events + [PhonePoll(posted)] + later).rounds, |w.rounds| + 1, AlertSet(w.ops, w.now))
    ensures var w := Run(start, events); var seen := AlertSet(w.ops, w.now);
      var polled, after := Run(start, events + [PhonePoll(posted)]), Run(start, events + [PhonePoll(posted)] + later);
      Named(a, a.upload.checks[i]) in Map(seen.checks, CheckFields())
      && (Mark(esc, polled.rounds) == Fingerprint(esc, seen)
          || (!posted
              && (SameProblems(seen, AlertSet(after.ops, after.now)) ==>
                    StepFor(esc, AlertSet(after.ops, after.now), Mark(esc, after.rounds)) == Step.Fire)))
  {
    hide State, Records, ProblemsAt, Fingerprint, AlertSet, StandingFailure, SameProblems;
    var w := Run(start, events);
    var seen := AlertSet(w.ops, w.now);
    var polled := events + [PhonePoll(posted)];
    assert polled[..|events|] == events;
    assert Run(start, polled).rounds == w.rounds + [Round(seen, posted)];
    FailureIsNotifiable(w.ops, w.now, a, i, runStart);
    PollTellsOrKeeps(esc, w.rounds, Round(seen, posted));
    var after := Run(start, polled + later);
    var again := AlertSet(after.ops, after.now);
    RoundsGrow(start, polled, later);
    assert after.rounds[..|w.rounds| + 1] == Run(start, polled).rounds;
    if SameProblems(seen, again) && Mark(esc, Run(start, polled).rounds) != Fingerprint(esc, seen) {
      MarkStaysOff(esc, after.rounds, |w.rounds| + 1, seen);
      FingerprintExact(esc, seen, again);
      SameProblemsEmpty(seen, again);
    }
  }
}
