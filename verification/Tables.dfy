/** The database as a value: its six tables, what each operation makes of them, and the
    queries behind the two views. `Store` is the code that changes the tables in place;
    everything proved about runs is proved about these functions. */
module Tables {
  import opened ReportTypes
  import opened Sequences
  import opened Staleness
  import Text
  import Utf8

  datatype Db = Db(
    reports: map<string, ReportRow>,
    checks: seq<CheckRow>,
    latest: map<Producer, Pointer>,
    since: map<Identity, Time>,
    mutes: seq<Mute>,
    retirements: map<Producer, Retirement>)

  const EMPTY := Db(map[], [], map[], map[], [], map[])

  const SCHEMA := 1
  const MAX_IDENTITY_BYTES := 255
  const MS_PER_HOUR := 3_600_000
  const MS_PER_DAY := 86_400_000
  const MIN_TTL_HOURS := 1
  const MAX_TTL_HOURS := 24 * 365
  const LAPSE_WARNING := 48 * MS_PER_HOUR

  // ---- ingest --------------------------------------------------------------------

  /** One authenticated upload as it reaches `ingest`: the token's source, the parsed
      body, what the ULID parser said of its id, the raw body and the server's clock. */
  datatype Arrival = Arrival(source: string, upload: Upload, idIsUlid: bool, raw: string, receivedAt: Time) {
    function From(): Producer {
      Producer(source, upload.collector)
    }

    function Stamp(): Pointer {
      Pointer(upload.id, upload.collectedAt)
    }

    /** Some check of this name is failing or warning. */
    predicate Shows(name: string) {
      exists i :: 0 <= i < |upload.checks| && upload.checks[i].name == name && upload.checks[i].verdict.Bad()
    }

    /** What a replay of it would have to repeat. */
    function Content(): (string, Upload, string) {
      (source, upload, raw)
    }
  }

  /** What is wrong with one check, the label looked at before the section. */
  function CheckRefusal(c: Check, i: nat): Option<Refusal> {
    if Text.Trim(c.name) == "" then Some(EmptyLabel(i))
    else if |Utf8.Encode(c.section)| > MAX_IDENTITY_BYTES then Some(SectionTooLong(i))
    else if |Utf8.Encode(c.name)| > MAX_IDENTITY_BYTES then Some(LabelTooLong(i))
    else None
  }

  /** The first refusal among the checks from position `i`. */
  function ChecksRefusal(checks: seq<Check>, i: nat): Option<Refusal>
    requires i <= |checks|
    decreases |checks| - i
  {
    if i == |checks| then None
    else if CheckRefusal(checks[i], i).Some? then CheckRefusal(checks[i], i)
    else ChecksRefusal(checks, i + 1)
  }

  function RefusalOf(a: Arrival): Option<Refusal> {
    if a.upload.schema != SCHEMA then Some(UnsupportedSchema)
    else if !a.idIsUlid then Some(NotAUlid)
    else if Text.Trim(a.upload.collector) == "" then Some(EmptyCollector)
    else ChecksRefusal(a.upload.checks, 0)
  }

  predicate Valid(a: Arrival) {
    RefusalOf(a).None?
  }

  function HasVerdict(v: Verdict): Check -> bool {
    (c: Check) => c.verdict == v
  }

  function CountOf(checks: seq<Check>, v: Verdict): nat {
    |Filter(checks, HasVerdict(v))|
  }

  function CountsOf(checks: seq<Check>): Counts {
    Counts(CountOf(checks, Pass), CountOf(checks, Warn), CountOf(checks, Fail), CountOf(checks, Skip))
  }

  function RowOf(a: Arrival): ReportRow {
    var n := CountsOf(a.upload.checks);
    ReportRow(a.From(), a.upload.schema, a.upload.collectedAt, a.receivedAt, a.upload.durationMs,
              a.upload.intervalS, n.fail == 0, n, Some(a.raw))
  }

  function CheckRowsOf(a: Arrival): seq<CheckRow> {
    seq(|a.upload.checks|,
        i requires 0 <= i < |a.upload.checks| =>
          CheckRow(a.upload.id, i, a.From(), a.upload.collectedAt, a.upload.checks[i]))
  }

  /** The ranking of `latest_report`: later collection wins, a tie goes to the larger id. */
  predicate Newer(p: Pointer, q: Pointer) {
    p.collectedAt > q.collectedAt || (p.collectedAt == q.collectedAt && Text.Below(q.reportId, p.reportId))
  }

  function Advance(latest: map<Producer, Pointer>, who: Producer, stamp: Pointer): map<Producer, Pointer> {
    if who in latest && !Newer(stamp, latest[who]) then latest else latest[who := stamp]
  }

  /** The labels an upload shows failing, each as an open-run key. */
  function BadKeys(a: Arrival): set<Identity> {
    set i | 0 <= i < |a.upload.checks| && a.upload.checks[i].verdict.Bad() ::
      Identity(a.From(), a.upload.checks[i].name)
  }

  /** The open runs once `a` is its producer's newest report: its own failing labels, an
      open one keeping its start; everybody else's untouched. */
  function Reopen(since: map<Identity, Time>, a: Arrival): map<Identity, Time> {
    map k | k in since.Keys + BadKeys(a) && (k.producer == a.From() ==> k in BadKeys(a)) ::
      if k in since then since[k] else a.upload.collectedAt
  }

  function AfterIngest(db: Db, a: Arrival): Db {
    if !Valid(a) || a.upload.id in db.reports then db
    else
      var latest := Advance(db.latest, a.From(), a.Stamp());
      db.(reports := db.reports[a.upload.id := RowOf(a)],
          checks := db.checks + CheckRowsOf(a),
          latest := latest,
          since := if latest[a.From()].reportId == a.upload.id then Reopen(db.since, a) else db.since)
  }

  function IngestResult(db: Db, a: Arrival): Result<Ack> {
    if !Valid(a) then Err(Unprocessable(RefusalOf(a).value))
    else if a.upload.id in db.reports then Ok(Ack(a.upload.id, true, 0))
    else Ok(Ack(a.upload.id, false, |a.upload.checks|))
  }

  // ---- the ranking window ----------------------------------------------------------

  /** `id` is rn = 1 of its partition. */
  predicate RanksFirst(reports: map<string, ReportRow>, id: string) {
    id in reports
    && forall other :: other in reports && reports[other].producer == reports[id].producer ==>
      other == id || Newer(Pointer(id, reports[id].collectedAt), Pointer(other, reports[other].collectedAt))
  }

  function Producers(reports: map<string, ReportRow>): set<Producer> {
    set id | id in reports :: reports[id].producer
  }

  function StampIn(reports: map<string, ReportRow>, id: string): Pointer
    requires id in reports
  {
    Pointer(id, reports[id].collectedAt)
  }

  /** The id the window puts first for one producer. */
  function FirstRanked(reports: map<string, ReportRow>, who: Producer): (id: string)
    requires who in Producers(reports)
    ensures RanksFirst(reports, id) && reports[id].producer == who
  {
    FirstExists(reports, who);
    FirstUnique(reports, who);
    var id :| id in reports && reports[id].producer == who && RanksFirst(reports, id);
    id
  }

  /** The whole window: one row per producer that has reports. */
  function Window(reports: map<string, ReportRow>): map<Producer, Pointer> {
    map who | who in Producers(reports) :: StampIn(reports, FirstRanked(reports, who))
  }

  lemma NewerAsymmetric(p: Pointer, q: Pointer)
    ensures !(Newer(p, q) && Newer(q, p))
  {
    Text.BelowAsymmetric(p.reportId, q.reportId);
  }

  lemma NewerTotal(p: Pointer, q: Pointer)
    ensures p == q || Newer(p, q) || Newer(q, p)
  {
    Text.BelowTotal(p.reportId, q.reportId);
  }

  lemma NewerTransitive(p: Pointer, q: Pointer, r: Pointer)
    requires Newer(p, q) && Newer(q, r)
    ensures Newer(p, r)
  {
    if p.collectedAt == q.collectedAt == r.collectedAt {
      Text.BelowTransitive(r.reportId, q.reportId, p.reportId);
    }
  }

  lemma Greatest(reports: map<string, ReportRow>, ids: set<string>) returns (id: string)
    requires ids != {} && ids <= reports.Keys
    ensures id in ids
    ensures forall other :: other in ids ==> other == id || Newer(StampIn(reports, id), StampIn(reports, other))
  {
    id :| id in ids;
    var rest := ids - {id};
    if rest != {} {
      var top := Greatest(reports, rest);
      NewerTotal(StampIn(reports, id), StampIn(reports, top));
      if Newer(StampIn(reports, id), StampIn(reports, top)) {
        forall other | other in rest && other != top ensures Newer(StampIn(reports, id), StampIn(reports, other)) {
          NewerTransitive(StampIn(reports, id), StampIn(reports, top), StampIn(reports, other));
        }
      } else {
        id := top;
      }
    }
  }

  lemma FirstExists(reports: map<string, ReportRow>, who: Producer)
    requires who in Producers(reports)
    ensures exists id :: id in reports && reports[id].producer == who && RanksFirst(reports, id)
  {
    var some :| some in reports && reports[some].producer == who;
    var mine := set id | id in reports && reports[id].producer == who;
    assert some in mine;
    var id := Greatest(reports, mine);
    assert reports[id].producer == who;
    forall other | other in reports && reports[other].producer == who
      ensures other == id || Newer(StampIn(reports, id), StampIn(reports, other))
    {
      assert other in mine;
    }
    assert RanksFirst(reports, id);
  }

  lemma FirstUnique(reports: map<string, ReportRow>, who: Producer)
    ensures forall x, y ::
      RanksFirst(reports, x) && RanksFirst(reports, y) && reports[x].producer == reports[y].producer == who ==> x == y
  {
    forall x, y | RanksFirst(reports, x) && RanksFirst(reports, y) && reports[x].producer == reports[y].producer == who
      ensures x == y
    {
      NewerAsymmetric(StampIn(reports, x), StampIn(reports, y));
    }
  }

  function AfterRebuild(db: Db): Db {
    db.(latest := db.latest + Window(db.reports))
  }

  // ---- mutes and retirements ---------------------------------------------------------

  function Clamp(n: nat): nat {
    if n < MIN_TTL_HOURS then MIN_TTL_HOURS else if n > MAX_TTL_HOURS then MAX_TTL_HOURS else n
  }

  predicate MuteAcceptable(req: NewMute) {
    Text.Trim(req.source) != "" && Text.Trim(req.collector) != "" && Text.Trim(req.name) != ""
    && Text.Trim(req.reason) != ""
  }

  function MuteKey(req: NewMute): Identity {
    Identity(Producer(Text.Trim(req.source), Text.Trim(req.collector)), Text.Trim(req.name))
  }

  function MuteOf(req: NewMute, creator: string, id: string, at: Time): Mute {
    Mute(id, MuteKey(req), Text.Trim(req.reason), creator, at, at + Clamp(req.ttlHours) * MS_PER_HOUR)
  }

  function WithId(id: string): Mute -> bool {
    (m: Mute) => m.id == id
  }

  function WithoutId(id: string): Mute -> bool {
    (m: Mute) => m.id != id
  }

  lemma FoundIffPresent(mutes: seq<Mute>, id: string)
    ensures Filter(mutes, WithId(id)) != [] <==> exists m :: m in mutes && m.id == id
  {
    if Filter(mutes, WithId(id)) != [] {
      FilterMember(mutes, WithId(id), Filter(mutes, WithId(id))[0]);
    }
    forall m | m in mutes ensures m in Filter(mutes, WithId(id)) <==> m.id == id {
      FilterMember(mutes, WithId(id), m);
    }
  }

  function AfterCreateMute(db: Db, req: NewMute, creator: string, id: string, at: Time): Db {
    if MuteAcceptable(req) && Filter(db.mutes, WithId(id)) == []
    then db.(mutes := db.mutes + [MuteOf(req, creator, id, at)]) else db
  }

  function AfterDeleteMute(db: Db, id: string): Db {
    db.(mutes := Filter(db.mutes, WithoutId(id)))
  }

  predicate RetirementAcceptable(req: NewRetirement) {
    Text.Trim(req.source) != "" && Text.Trim(req.collector) != "" && Text.Trim(req.reason) != ""
  }

  function RetirementKey(req: NewRetirement): Producer {
    Producer(Text.Trim(req.source), Text.Trim(req.collector))
  }

  function AfterRetire(db: Db, req: NewRetirement, creator: string, at: Time): Db {
    if !RetirementAcceptable(req) then db
    else
      var who := RetirementKey(req);
      var when := if who in db.retirements then db.retirements[who].retiredAt else at;
      db.(retirements := db.retirements[who := Retirement(Text.Trim(req.reason), creator, when)])
  }

  function AfterUnretire(db: Db, who: Producer): Db {
    db.(retirements := db.retirements - {who})
  }

  // ---- retention --------------------------------------------------------------------

  function CollectedFrom(cutoff: Time): CheckRow -> bool {
    (c: CheckRow) => c.collectedAt >= cutoff
  }

  function ClearRaw(row: ReportRow, cutoff: Time): ReportRow {
    if row.raw.Some? && row.receivedAt < cutoff then row.(raw := None) else row
  }

  function AfterSweep(db: Db, rawCutoff: Time, checkCutoff: Time): Db {
    db.(reports := map id | id in db.reports :: ClearRaw(db.reports[id], rawCutoff),
        checks := Filter(db.checks, CollectedFrom(checkCutoff)))
  }

  // ---- runs of operations -------------------------------------------------------------

  datatype Op =
    | Ingest(a: Arrival)
    | CreateMute(mute: NewMute, creator: string, id: string, at: Time)
    | DeleteMute(id: string)
    | Retire(retirement: NewRetirement, creator: string, at: Time)
    | Unretire(who: Producer)
    | Sweep(rawCutoff: Time, checkCutoff: Time)
    | Rebuild

  function Apply(db: Db, op: Op): Db {
    match op
    case Ingest(a) => AfterIngest(db, a)
    case CreateMute(req, creator, id, at) => AfterCreateMute(db, req, creator, id, at)
    case DeleteMute(id) => AfterDeleteMute(db, id)
    case Retire(req, creator, at) => AfterRetire(db, req, creator, at)
    case Unretire(who) => AfterUnretire(db, who)
    case Sweep(raw, check) => AfterSweep(db, raw, check)
    case Rebuild => AfterRebuild(db)
  }

  /** The database after a run of operations from empty tables. */
  function State(ops: seq<Op>): Db {
    if ops == [] then EMPTY else Apply(State(ops[..|ops| - 1]), Last(ops))
  }

  /** One more operation. */
  lemma RunSnoc(ops: seq<Op>, op: Op)
    ensures State(ops + [op]) == Apply(State(ops), op)
  {
    assert (ops + [op])[..|ops|] == ops;
  }

  // ---- queries ------------------------------------------------------------------------

  predicate Live(m: Mute, now: Time) {
    m.expiresAt > now
  }

  function LiveAt(now: Time): Mute -> bool {
    (m: Mute) => Live(m, now)
  }

  function NewestFirst(): (Mute, Mute) -> bool {
    (m: Mute, n: Mute) => m.createdAt >= n.createdAt
  }

  function ListMutes(db: Db, now: Time): seq<Mute> {
    Sort(Filter(db.mutes, LiveAt(now)), NewestFirst())
  }

  /** The mute the overlay goes by: the latest to expire, the first listed of equals. */
  function BestMute(mutes: seq<Mute>, key: Identity): Option<Mute> {
    if mutes == [] then None
    else
      var best := BestMute(mutes[..|mutes| - 1], key);
      var m := Last(mutes);
      if m.identity == key && (best.None? || m.expiresAt > best.value.expiresAt) then Some(m) else best
  }

  predicate ProducerBelow(p: Producer, q: Producer) {
    Text.Below(p.source, q.source) || (p.source == q.source && Text.Below(p.collector, q.collector))
  }

  function OfReport(id: string): CheckRow -> bool {
    (c: CheckRow) => c.reportId == id
  }

  function RowsOf(db: Db, id: string): seq<CheckRow> {
    Filter(db.checks, OfReport(id))
  }

  function Silencing(key: Identity, now: Time): Mute -> bool {
    (m: Mute) => m.identity == key && Live(m, now)
  }

  /** Rows of the join of check rows with their live mutes, for one verdict. */
  function MutedCount(rows: seq<CheckRow>, mutes: seq<Mute>, v: Verdict, now: Time): nat {
    if rows == [] then 0
    else
      var c := Last(rows);
      MutedCount(rows[..|rows| - 1], mutes, v, now)
      + (if c.check.verdict == v then |Filter(mutes, Silencing(c.Key(), now))| else 0)
  }

  function SaturatingSub(a: nat, b: nat): nat {
    if a >= b then a - b else 0
  }

  function WorstOf(fail: nat, warn: nat, pass: nat): Verdict {
    if fail > 0 then Fail else if warn > 0 then Warn else if pass > 0 then Pass else Skip
  }

  function TileOf(id: string, r: ReportRow, mutedFail: nat, mutedWarn: nat, now: Time): Tile {
    var age := AgeSeconds(now, r.collectedAt);
    var fail := SaturatingSub(r.counts.fail, mutedFail);
    var warn := SaturatingSub(r.counts.warn, mutedWarn);
    Tile(r.producer, id, r.collectedAt, age, r.intervalS, FreshnessOf(age, r.intervalS),
         WorstOf(fail, warn, r.counts.pass), r.counts.pass, warn, fail, r.counts.skip,
         mutedFail + mutedWarn, r.counts.pass + r.counts.warn + r.counts.fail + r.counts.skip)
  }

  /** The tile of the report a producer's pointer names. */
  function TileFor(db: Db, id: string, now: Time): Tile
    requires id in db.reports
  {
    var rows := RowsOf(db, id);
    TileOf(id, db.reports[id], MutedCount(rows, db.mutes, Fail, now), MutedCount(rows, db.mutes, Warn, now), now)
  }

  /** The problem rows' WHERE clause: a bad row of a report some pointer names. */
  function CurrentBad(latest: map<Producer, Pointer>): CheckRow -> bool {
    (c: CheckRow) => c.check.verdict.Bad() && Pointed(latest, c.reportId)
  }

  predicate Pointed(latest: map<Producer, Pointer>, id: string) {
    exists who :: who in latest && latest[who].reportId == id
  }

  /** ORDER BY FIELD(verdict, 'fail', 'warn'), source, collector, section, seq. */
  function RowOrder(): (CheckRow, CheckRow) -> bool {
    (c: CheckRow, d: CheckRow) =>
      c.check.verdict.Severity() > d.check.verdict.Severity()
      || (c.check.verdict == d.check.verdict
          && (ProducerBelow(c.producer, d.producer)
              || (c.producer == d.producer
                  && (Text.Below(c.check.section, d.check.section)
                      || (c.check.section == d.check.section && c.pos <= d.pos)))))
  }

  function ProblemRows(db: Db): seq<CheckRow> {
    Sort(Filter(db.checks, CurrentBad(db.latest)), RowOrder())
  }

  function FirstSeen(since: map<Identity, Time>, c: CheckRow): Option<Time> {
    if c.Key() in since then Some(since[c.Key()]) else None
  }

  function ProblemCheckOf(c: CheckRow, first: Option<Time>): ProblemCheck {
    ProblemCheck(c.producer, c.reportId, c.check.section, c.check.name, c.check.subject, c.check.verdict,
                 c.check.observed, c.check.expected, c.check.docRef, c.check.detail, c.collectedAt,
                 first, first.None? || first.value < c.collectedAt)
  }

  function MutedCheckOf(c: CheckRow, m: Mute): MutedCheck {
    MutedCheck(c.producer, c.reportId, c.check.section, c.check.name, c.check.subject, c.check.verdict,
               c.check.observed, c.check.docRef, c.check.detail, c.collectedAt, m.id, m.reason, m.expiresAt)
  }

  function ToProblem(since: map<Identity, Time>): CheckRow -> ProblemCheck {
    (c: CheckRow) => ProblemCheckOf(c, FirstSeen(since, c))
  }

  function Unmuted(mutes: seq<Mute>): CheckRow -> bool {
    (c: CheckRow) => BestMute(mutes, c.Key()).None?
  }

  function Muted(mutes: seq<Mute>): CheckRow -> bool {
    (c: CheckRow) => BestMute(mutes, c.Key()).Some?
  }

  predicate IsLapsing(m: Mute, now: Time) {
    var quarter := (m.expiresAt - m.createdAt) / 4;
    m.expiresAt - now <= (if quarter < LAPSE_WARNING then quarter else LAPSE_WARNING)
  }

  function LapsingAt(now: Time): Mute -> bool {
    (m: Mute) => IsLapsing(m, now)
  }

  function StaleIn(retirements: map<Producer, Retirement>): Tile -> bool {
    (e: Tile) => e.producer !in retirements && e.freshness != Fresh
  }

  function ReturnedIn(retirements: map<Producer, Retirement>): Tile -> bool {
    (e: Tile) => e.producer in retirements && e.collectedAt > retirements[e.producer].retiredAt
  }

  function ForKey(key: CheckKey, from: Time, to: Time): CheckRow -> bool {
    (c: CheckRow) =>
      c.producer == key.producer && c.check.section == key.section && c.check.name == key.name
      && from <= c.collectedAt <= to
  }

  function OldestFirst(): (CheckRow, CheckRow) -> bool {
    (c: CheckRow, d: CheckRow) => c.collectedAt <= d.collectedAt
  }

  function ToPoint(): CheckRow -> HistoryPoint {
    (c: CheckRow) => HistoryPoint(c.collectedAt, c.check.verdict, c.check.value)
  }

  /** The unit of the most recent row that has one. */
  function LatestUnit(rows: seq<CheckRow>): Option<string> {
    if rows == [] then None
    else if Last(rows).check.unit.Some? then Last(rows).check.unit
    else LatestUnit(rows[..|rows| - 1])
  }

  function HistoryOf(db: Db, key: CheckKey, from: Time, to: Time): History {
    var rows := Sort(Filter(db.checks, ForKey(key, from, to)), OldestFirst());
    History(key, LatestUnit(rows), Map(rows, ToPoint()))
  }
}
