/** The values the report store handles: uploads, verdicts, table rows and the
    entries of the two read views. A field called `name` is the wire's `label`, which is
    a reserved word here. */
module ReportTypes {

  /** Milliseconds since the Unix epoch, the precision of a DATETIME(3) column. */
  type Time = int

  type U64 = n: int | 0 <= n < 0x1_0000_0000_0000_0000

  datatype Option<+T> = None | Some(value: T)

  datatype Result<+T> = Ok(value: T) | Err(error: AppError)

  datatype AppError = Unprocessable(why: Refusal) | BadRequest | Database

  /** Why an upload is refused; a check is named by its position. */
  datatype Refusal =
    | UnsupportedSchema
    | NotAUlid
    | EmptyCollector
    | EmptyLabel(check: nat)
    | SectionTooLong(check: nat)
    | LabelTooLong(check: nat)

  datatype Verdict = Pass | Warn | Fail | Skip {
    /** Fail or warn: what opens a run and what the problems view lists. */
    predicate Bad() {
      Fail? || Warn?
    }

    function Show(): string {
      match this
      case Pass => "pass"
      case Warn => "warn"
      case Fail => "fail"
      case Skip => "skip"
    }

    /** How bad a verdict is on a tile; larger is worse. */
    function Severity(): nat {
      match this
      case Skip => 0
      case Pass => 1
      case Warn => 2
      case Fail => 3
    }
  }

  function ParseVerdict(s: string): Option<Verdict> {
    if s == "pass" then Some(Pass)
    else if s == "warn" then Some(Warn)
    else if s == "fail" then Some(Fail)
    else if s == "skip" then Some(Skip)
    else None
  }

  /** The column's spelling and the parser are inverse, and nothing else parses. */
  lemma VerdictRoundTrip(v: Verdict, s: string)
    ensures ParseVerdict(v.Show()) == Some(v)
    ensures ParseVerdict(s) == Some(v) <==> s == v.Show()
    ensures ParseVerdict("pass") == Some(Pass) && ParseVerdict("warn") == Some(Warn)
    ensures ParseVerdict("fail") == Some(Fail) && ParseVerdict("skip") == Some(Skip)
  {
    assert v.Show()[0] == match v case Pass => 'p' case Warn => 'w' case Fail => 'f' case Skip => 's';
  }

  datatype Freshness = Fresh | Overdue | Silent

  datatype Producer = Producer(source: string, collector: string)

  /** What a mute and an open run are keyed by. */
  datatype Identity = Identity(producer: Producer, name: string)

  datatype Check = Check(
    section: string,
    name: string,
    subject: Option<string>,
    verdict: Verdict,
    observed: Option<string>,
    expected: Option<string>,
    value: Option<real>,
    unit: Option<string>,
    docRef: Option<string>,
    detail: Option<string>)

  datatype Upload = Upload(
    schema: nat,
    id: string,
    collector: string,
    collectedAt: Time,
    durationMs: Option<U64>,
    intervalS: Option<U64>,
    checks: seq<Check>)

  datatype Counts = Counts(pass: nat, warn: nat, fail: nat, skip: nat)

  // ---- table rows ----------------------------------------------------------------

  datatype ReportRow = ReportRow(
    producer: Producer,
    schema: nat,
    collectedAt: Time,
    receivedAt: Time,
    durationMs: Option<U64>,
    intervalS: Option<U64>,
    ok: bool,
    counts: Counts,
    raw: Option<string>)

  datatype CheckRow = CheckRow(
    reportId: string,
    pos: nat,
    producer: Producer,
    collectedAt: Time,
    check: Check)
  {
    function Key(): Identity {
      Identity(producer, check.name)
    }
  }

  datatype Pointer = Pointer(reportId: string, collectedAt: Time)

  datatype Mute = Mute(
    id: string,
    identity: Identity,
    reason: string,
    createdBy: string,
    createdAt: Time,
    expiresAt: Time)

  datatype Retirement = Retirement(reason: string, createdBy: string, retiredAt: Time)

  datatype NewMute = NewMute(source: string, collector: string, name: string, reason: string, ttlHours: nat)

  datatype NewRetirement = NewRetirement(source: string, collector: string, reason: string)

  datatype Ack = Ack(id: string, duplicate: bool, checks: nat)

  // ---- view entries ----------------------------------------------------------------

  datatype Tile = Tile(
    producer: Producer,
    reportId: string,
    collectedAt: Time,
    ageS: int,
    intervalS: Option<U64>,
    freshness: Freshness,
    worst: Verdict,
    pass: nat,
    warn: nat,
    fail: nat,
    skip: nat,
    muted: nat,
    total: nat)

  datatype ProblemCheck = ProblemCheck(
    producer: Producer,
    reportId: string,
    section: string,
    name: string,
    subject: Option<string>,
    verdict: Verdict,
    observed: Option<string>,
    expected: Option<string>,
    docRef: Option<string>,
    detail: Option<string>,
    collectedAt: Time,
    firstSeen: Option<Time>,
    confirmed: bool)

  datatype MutedCheck = MutedCheck(
    producer: Producer,
    reportId: string,
    section: string,
    name: string,
    subject: Option<string>,
    verdict: Verdict,
    observed: Option<string>,
    docRef: Option<string>,
    detail: Option<string>,
    collectedAt: Time,
    muteId: string,
    reason: string,
    expiresAt: Time)

  datatype ProblemsView = ProblemsView(
    checks: seq<ProblemCheck>,
    muted: seq<MutedCheck>,
    stale: seq<Tile>,
    lapsing: seq<Mute>,
    returned: seq<Tile>)

  /** A check's trend identity. */
  datatype CheckKey = CheckKey(producer: Producer, section: string, name: string)

  datatype HistoryPoint = HistoryPoint(collectedAt: Time, verdict: Verdict, value: Option<real>)

  datatype History = History(key: CheckKey, unit: Option<string>, points: seq<HistoryPoint>)
}
