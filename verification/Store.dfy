/** The store as the server runs it: tables changed in place, one operation at a time.
    Each method is tied to the function of the same step in `Tables`, and the ghost log of
    operations ties the whole object to a run from empty tables. */
module ReportStore {
  import opened ReportTypes
  import opened Sequences
  import opened Tables
  import opened Views
  import Text
  import Utf8

  class Store {
    var reports: map<string, ReportRow>
    var checks: seq<CheckRow>
    var latest: map<Producer, Pointer>
    var since: map<Identity, Time>
    var mutes: seq<Mute>
    var retirements: map<Producer, Retirement>
    ghost var ops: seq<Op>

    ghost function Contents(): Db
      reads this
    {
      Db(reports, checks, latest, since, mutes, retirements)
    }

    /** The tables are what the logged operations make of empty ones. */
    ghost predicate Valid()
      reads this
    {
      Contents() == State(ops)
    }

    constructor ()
      ensures Valid() && ops == []
    {
      reports, checks, latest, since, mutes, retirements := map[], [], map[], map[], [], map[];
      ops := [];
    }

    /** Validate and store one upload under its source; a known id is a replay. */
    method Ingest(a: Arrival) returns (res: Result<Ack>)
      requires Valid()
      modifies this
      ensures Valid() && ops == old(ops) + [Op.Ingest(a)]
      ensures Contents() == AfterIngest(old(Contents()), a)
      ensures res == IngestResult(old(Contents()), a)
      ensures res.Ok? ==>
        res.value.id == a.upload.id && a.upload.id in reports
        && (res.value.duplicate <==> reports.Keys == old(reports).Keys)
        && res.value.checks == |checks| - |old(checks)|
      ensures res.Err? ==> Contents() == old(Contents())
    {
      hide State;
      RunSnoc(ops, Op.Ingest(a));
      ops := ops + [Op.Ingest(a)];
      var refusal := Validate(a);
      if refusal.Some? {
        return Err(Unprocessable(refusal.value));
      }
      if a.upload.id in reports {
        return Ok(Ack(a.upload.id, true, 0));
      }
      Record(a);
      return Ok(Ack(a.upload.id, false, |a.upload.checks|));
    }

    /** The transaction behind a fresh upload. */
    method Record(a: Arrival)
      requires Tables.Valid(a) && a.upload.id !in reports
      modifies this`reports, this`checks, this`latest, this`since
      ensures Contents() == AfterIngest(old(Contents()), a)
    {
      hide Filter, Tables.Valid;
      var counts := Tally(a.upload.checks);
      reports := reports[a.upload.id := ReportRow(a.From(), a.upload.schema, a.upload.collectedAt, a.receivedAt,
                                                  a.upload.durationMs, a.upload.intervalS, counts.fail == 0, counts,
                                                  Some(a.raw))];
      InsertChecks(a);
      Upsert(a.From(), a.upload.id, a.upload.collectedAt);
      if latest[a.From()].reportId == a.upload.id {
        FollowRuns(a);
      }
      IngestParts(old(Contents()), a, Contents());
    }

    /** The newest report opens and ends its producer's runs. */
    method FollowRuns(a: Arrival)
      modifies this`since
      ensures since == Reopen(old(since), a)
    {
      OpenRuns(a);
      EndRuns(a);
    }

    /** One row per check, in upload order. */
    method InsertChecks(a: Arrival)
      modifies this`checks
      ensures checks == old(checks) + CheckRowsOf(a)
    {
      var i := 0;
      while i < |a.upload.checks|
        invariant 0 <= i <= |a.upload.checks|
        invariant checks == old(checks) + CheckRowsOf(a)[..i]
      {
        checks := checks + [CheckRow(a.upload.id, i, a.From(), a.upload.collectedAt, a.upload.checks[i])];
        assert CheckRowsOf(a)[..i + 1] == CheckRowsOf(a)[..i] + [CheckRowsOf(a)[i]];
        i := i + 1;
      }
      assert CheckRowsOf(a)[..i] == CheckRowsOf(a);
    }

    /** INSERT ... ON DUPLICATE KEY UPDATE. The assignments run in the order written, so
        `report_id` is decided against the stored `collected_at` before that is advanced. */
    method Upsert(who: Producer, id: string, collected: Time)
      modifies this`latest
      ensures latest == Advance(old(latest), who, Pointer(id, collected))
    {
      if who !in latest {
        latest := latest[who := Pointer(id, collected)];
      } else {
        var row := latest[who];
        row := row.(reportId := if collected > row.collectedAt
                                   || (collected == row.collectedAt && Text.Below(row.reportId, id))
                                then id else row.reportId);
        row := row.(collectedAt := if collected > row.collectedAt then collected else row.collectedAt);
        assert old(latest)[who := old(latest)[who]] == old(latest);
        latest := latest[who := row];
      }
    }

    /** INSERT IGNORE for every failing or warning check: an open run keeps its start. */
    method OpenRuns(a: Arrival)
      modifies this`since
      ensures since.Keys == old(since).Keys + BadKeys(a)
      ensures forall k :: k in since ==> since[k] == if k in old(since) then old(since)[k] else a.upload.collectedAt
    {
      var i := 0;
      while i < |a.upload.checks|
        invariant 0 <= i <= |a.upload.checks|
        invariant since.Keys == old(since).Keys + BadKeysUpTo(a, i)
        invariant forall k :: k in since ==> since[k] == if k in old(since) then old(since)[k] else a.upload.collectedAt
      {
        var c := a.upload.checks[i];
        if c.verdict.Bad() {
          var k := Identity(a.From(), c.name);
          if k !in since {
            since := since[k := a.upload.collectedAt];
          }
        }
        i := i + 1;
      }
    }

    /** DELETE every run of the producer that the upload does not show failing. */
    method EndRuns(a: Arrival)
      modifies this`since
      ensures since == map k | k in old(since) && (k.producer == a.From() ==> k in BadKeys(a)) :: old(since)[k]
    {
      var failing: seq<string> := [];
      var i := 0;
      while i < |a.upload.checks|
        invariant 0 <= i <= |a.upload.checks|
        invariant forall name :: name in failing <==> Identity(a.From(), name) in BadKeysUpTo(a, i)
      {
        if a.upload.checks[i].verdict.Bad() {
          failing := failing + [a.upload.checks[i].name];
        }
        i := i + 1;
      }
      var who := a.From();
      since := map k | k in since && !(k.producer == who && (failing == [] || k.name !in failing)) :: since[k];
      assert forall k: Identity :: k.producer == who ==> k == Identity(who, k.name);
    }

    /** Recompute the pointers from the reports. */
    method RebuildLatestReport()
      requires Valid()
      modifies this
      ensures Valid() && ops == old(ops) + [Rebuild]
      ensures Contents() == AfterRebuild(old(Contents()))
    {
      hide State;
      RunSnoc(ops, Rebuild);
      ops := ops + [Rebuild];
      latest := latest + Window(reports);
    }

    /** One retention sweep; answers how many bodies it cleared and rows it deleted. */
    method RetentionSweep(now: Time, rawDays: int, checkDays: int) returns (rawCleared: nat, checksDeleted: nat)
      requires Valid()
      modifies this
      ensures Valid() && ops == old(ops) + [Sweep(now - rawDays * 86_400_000, now - checkDays * 86_400_000)]
      ensures Contents() == AfterSweep(old(Contents()), now - rawDays * 86_400_000, now - checkDays * 86_400_000)
      ensures rawCleared == |Cleared(old(reports), reports)|
      ensures checksDeleted == |old(checks)| - |checks|
    {
      var rawCutoff, checkCutoff := now - rawDays * MS_PER_DAY, now - checkDays * MS_PER_DAY;
      hide State;
      RunSnoc(ops, Sweep(rawCutoff, checkCutoff));
      ops := ops + [Sweep(rawCutoff, checkCutoff)];
      rawCleared := ClearBodies(rawCutoff);
      checksDeleted := DeleteChecks(checkCutoff);
    }

    /** UPDATE report SET raw = NULL. */
    method ClearBodies(cutoff: Time) returns (n: nat)
      modifies this`reports
      ensures reports == map id | id in old(reports) :: ClearRaw(old(reports)[id], cutoff)
      ensures n == |Cleared(old(reports), reports)|
    {
      var due := set id | id in reports && reports[id].raw.Some? && reports[id].receivedAt < cutoff;
      reports := map id | id in reports :: if id in due then reports[id].(raw := None) else reports[id];
      assert due == Cleared(old(reports), reports);
      n := |due|;
    }

    /** DELETE FROM check_result. */
    method DeleteChecks(cutoff: Time) returns (n: nat)
      modifies this`checks
      ensures checks == Filter(old(checks), CollectedFrom(cutoff))
      ensures n == |old(checks)| - |checks|
    {
      var kept := Filter(checks, CollectedFrom(cutoff));
      FilterSplit(checks, CollectedFrom(cutoff), CollectedBefore(cutoff));
      n := |checks| - |kept|;
      checks := kept;
    }

    /** Silence an identity until the clamped time to live runs out. `id` is the ULID minted
        for it; a collision is the primary key's error. */
    method CreateMute(req: NewMute, creator: string, id: string, now: Time) returns (res: Result<Mute>)
      requires Valid()
      modifies this
      ensures Valid() && ops == old(ops) + [Op.CreateMute(req, creator, id, now)]
      ensures Contents() == AfterCreateMute(old(Contents()), req, creator, id, now)
      ensures !MuteAcceptable(req) ==> res == Err(BadRequest)
      ensures res.Ok? ==> mutes == old(mutes) + [res.value]
      ensures MuteAcceptable(req) ==>
        res == if (exists m :: m in old(mutes) && m.id == id) then Err(Database) else Ok(MuteOf(req, creator, id, now))
    {
      hide State, Filter, Text.Trim;
      RunSnoc(ops, Op.CreateMute(req, creator, id, now));
      ops := ops + [Op.CreateMute(req, creator, id, now)];
      var source, collector := Text.Trim(req.source), Text.Trim(req.collector);
      var name, reason := Text.Trim(req.name), Text.Trim(req.reason);
      if source == "" || collector == "" || name == "" {
        return Err(BadRequest);
      }
      if reason == "" {
        return Err(BadRequest);
      }
      var ttl := Clamp(req.ttlHours);
      var m := Mute(id, Identity(Producer(source, collector), name), reason, creator, now, now + ttl * MS_PER_HOUR);
      var inserted := InsertMute(m);
      return if inserted then Ok(m) else Err(Database);
    }

    /** INSERT INTO mute, which the primary key refuses for an id it holds. */
    method InsertMute(m: Mute) returns (inserted: bool)
      modifies this`mutes
      ensures inserted <==> Filter(old(mutes), WithId(m.id)) == []
      ensures inserted <==> !exists n :: n in old(mutes) && n.id == m.id
      ensures mutes == if inserted then old(mutes) + [m] else old(mutes)
    {
      FoundIffPresent(mutes, m.id);
      inserted := Filter(mutes, WithId(m.id)) == [];
      if inserted {
        mutes := mutes + [m];
      }
    }

    /** Unmute early; answers whether there was such a mute. */
    method DeleteMute(id: string) returns (found: bool)
      requires Valid()
      modifies this
      ensures Valid() && ops == old(ops) + [Op.DeleteMute(id)]
      ensures Contents() == AfterDeleteMute(old(Contents()), id)
      ensures found <==> exists m :: m in old(mutes) && m.id == id
      ensures forall m :: m in mutes <==> m in old(mutes) && m.id != id
    {
      hide State, Filter;
      RunSnoc(ops, Op.DeleteMute(id));
      ops := ops + [Op.DeleteMute(id)];
      var kept := Filter(mutes, WithoutId(id));
      FilterSplit(mutes, WithoutId(id), WithId(id));
      FoundIffPresent(mutes, id);
      found := |kept| < |mutes|;
      forall m ensures m in kept <==> m in mutes && m.id != id {
        FilterMember(mutes, WithoutId(id), m);
      }
      mutes := kept;
    }

    /** Declare a producer finished. Restating it keeps the original time. */
    method CreateRetirement(req: NewRetirement, creator: string, now: Time) returns (res: Result<Retirement>)
      requires Valid()
      modifies this
      ensures Valid() && ops == old(ops) + [Retire(req, creator, now)]
      ensures Contents() == AfterRetire(old(Contents()), req, creator, now)
      ensures res == if RetirementAcceptable(req) then Ok(retirements[RetirementKey(req)]) else Err(BadRequest)
      ensures res.Ok? <==> Text.Trim(req.source) != "" && Text.Trim(req.collector) != "" && Text.Trim(req.reason) != ""
      ensures res.Ok? ==>
        var who := Producer(Text.Trim(req.source), Text.Trim(req.collector));
        res.value == Retirement(Text.Trim(req.reason), creator,
                                if who in old(retirements) then old(retirements[who].retiredAt) else now)
        && retirements == old(retirements)[who := res.value]
    {
      hide State, Text.Trim;
      RunSnoc(ops, Retire(req, creator, now));
      ops := ops + [Retire(req, creator, now)];
      var source, collector, reason := Text.Trim(req.source), Text.Trim(req.collector), Text.Trim(req.reason);
      if source == "" || collector == "" {
        return Err(BadRequest);
      }
      if reason == "" {
        return Err(BadRequest);
      }
      var who := Producer(source, collector);
      if who in retirements {
        retirements := retirements[who := retirements[who].(reason := reason, createdBy := creator)];
      } else {
        retirements := retirements[who := Retirement(reason, creator, now)];
      }
      return Ok(retirements[who]);
    }

    method DeleteRetirement(who: Producer) returns (found: bool)
      requires Valid()
      modifies this
      ensures Valid() && ops == old(ops) + [Unretire(who)]
      ensures Contents() == AfterUnretire(old(Contents()), who)
      ensures found == (who in old(retirements))
      ensures who !in retirements && forall p :: p != who ==>
        (p in retirements <==> p in old(retirements)) && (p in retirements ==> retirements[p] == old(retirements)[p])
    {
      hide State;
      RunSnoc(ops, Unretire(who));
      ops := ops + [Unretire(who)];
      found := who in retirements;
      retirements := retirements - {who};
    }

    /** The overview: one tile per producer, by source and collector. */
    method Overview(now: Time) returns (tiles: seq<Tile>)
      ensures tiles == OverviewAt(Contents(), now)
    {
      var db := Db(reports, checks, latest, since, mutes, retirements);
      tiles := TileLoop(db, SortedProducers(latest.Keys), now);
    }

    /** The problems view: the bad rows partitioned by the best live mute of their identity,
        the tiles by retirement. */
    method Problems(now: Time) returns (view: ProblemsView)
      ensures view == ProblemsAt(Contents(), now)
    {
      var db := Db(reports, checks, latest, since, mutes, retirements);
      var live := ListMutes(db, now);
      var best := BestByIdentity(live);
      var bad, muted := PartitionRows(db, ProblemRows(db), live, best);
      var tiles := Overview(now);
      var stale, returned := PartitionTiles(tiles, retirements);
      view := ProblemsView(bad, muted, stale, Filter(live, LapsingAt(now)), returned);
    }
  }

  method TileLoop(db: Db, order: seq<Producer>, now: Time) returns (tiles: seq<Tile>)
    requires forall p :: p in order ==> p in db.latest
    ensures tiles == TilesFor(db, order, now)
  {
    tiles := [];
    var i := 0;
    while i < |order|
      invariant 0 <= i <= |order|
      invariant tiles == TilesFor(db, order[..i], now)
    {
      assert order[..i + 1] == order[..i] + [order[i]];
      TilesForSnoc(db, order[..i], order[i], now);
      tiles := tiles + TileRow(db, db.latest[order[i]], now);
      i := i + 1;
    }
    assert order[..i] == order;
  }

  /** The verdict column holds the verdict's spelling, which is parsed back. */
  function ReadBack(v: Verdict): (w: Verdict)
    ensures w == v
  {
    VerdictRoundTrip(v, v.Show());
    ParseVerdict(v.Show()).value
  }

  method PartitionRows(db: Db, rows: seq<CheckRow>, live: seq<Mute>, best: map<Identity, Mute>)
    returns (bad: seq<ProblemCheck>, muted: seq<MutedCheck>)
    requires forall k :: k in best <==> BestMute(live, k).Some?
    requires forall k :: k in best ==> BestMute(live, k) == Some(best[k])
    ensures bad == Map(Filter(rows, Unmuted(live)), ToProblem(db.since))
    ensures muted == MutedChecks(rows, live)
  {
    hide ReadBack;
    bad, muted := [], [];
    var i := 0;
    while i < |rows|
      invariant 0 <= i <= |rows|
      invariant bad == Map(Filter(rows[..i], Unmuted(live)), ToProblem(db.since))
      invariant muted == MutedChecks(rows[..i], live)
    {
      var c := rows[i];
      assert rows[..i + 1] == rows[..i] + [c];
      FilterSnoc(rows[..i], c, Unmuted(live));
      MutedChecksSnoc(rows[..i], c, live);
      var verdict := ReadBack(c.check.verdict);
      if c.Key() in best {
        muted := muted + [MutedCheckOf(c, best[c.Key()]).(verdict := verdict)];
      } else {
        bad := bad + [ProblemCheckOf(c, FirstSeen(db.since, c)).(verdict := verdict)];
      }
      i := i + 1;
    }
    assert rows[..i] == rows;
  }

  method PartitionTiles(tiles: seq<Tile>, retirements: map<Producer, Retirement>)
    returns (stale: seq<Tile>, returned: seq<Tile>)
    ensures stale == Filter(tiles, StaleIn(retirements))
    ensures returned == Filter(tiles, ReturnedIn(retirements))
  {
    stale, returned := [], [];
    var j := 0;
    while j < |tiles|
      invariant 0 <= j <= |tiles|
      invariant stale == Filter(tiles[..j], StaleIn(retirements))
      invariant returned == Filter(tiles[..j], ReturnedIn(retirements))
    {
      var e := tiles[j];
      assert tiles[..j + 1] == tiles[..j] + [e];
      FilterSnoc(tiles[..j], e, StaleIn(retirements));
      FilterSnoc(tiles[..j], e, ReturnedIn(retirements));
      if e.producer in retirements {
        if e.collectedAt > retirements[e.producer].retiredAt {
          returned := returned + [e];
        }
      } else if e.freshness != Fresh {
        stale := stale + [e];
      }
      j := j + 1;
    }
    assert tiles[..j] == tiles;
  }

  /** The first refusal, checks looked at in order. */
  method Validate(a: Arrival) returns (refusal: Option<Refusal>)
    ensures refusal == RefusalOf(a)
  {
    if a.upload.schema != SCHEMA {
      return Some(UnsupportedSchema);
    }
    if !a.idIsUlid {
      return Some(NotAUlid);
    }
    if Text.Trim(a.upload.collector) == "" {
      return Some(EmptyCollector);
    }
    var i := 0;
    while i < |a.upload.checks|
      invariant 0 <= i <= |a.upload.checks|
      invariant ChecksRefusal(a.upload.checks, 0) == ChecksRefusal(a.upload.checks, i)
    {
      var c := a.upload.checks[i];
      if Text.Trim(c.name) == "" {
        return Some(EmptyLabel(i));
      }
      if |Utf8.Encode(c.section)| > MAX_IDENTITY_BYTES {
        return Some(SectionTooLong(i));
      }
      if |Utf8.Encode(c.name)| > MAX_IDENTITY_BYTES {
        return Some(LabelTooLong(i));
      }
      i := i + 1;
    }
    return None;
  }

  method Tally(checks: seq<Check>) returns (n: Counts)
    ensures n == CountsOf(checks)
    ensures n.pass + n.warn + n.fail + n.skip == |checks|
  {
    var pass, warn, fail, skip := 0, 0, 0, 0;
    var i := 0;
    while i < |checks|
      invariant 0 <= i <= |checks|
      invariant Counts(pass, warn, fail, skip) == CountsOf(checks[..i])
      invariant pass + warn + fail + skip == i
    {
      assert checks[..i + 1][..i] == checks[..i];
      match checks[i].verdict {
        case Pass => pass := pass + 1;
        case Warn => warn := warn + 1;
        case Fail => fail := fail + 1;
        case Skip => skip := skip + 1;
      }
      i := i + 1;
    }
    assert checks[..i] == checks;
    n := Counts(pass, warn, fail, skip);
  }

  /** The overlay's table: for each identity its best listed mute. */
  method BestByIdentity(live: seq<Mute>) returns (best: map<Identity, Mute>)
    ensures forall k :: k in best <==> BestMute(live, k).Some?
    ensures forall k :: k in best ==> BestMute(live, k) == Some(best[k])
  {
    best := map[];
    var i := 0;
    while i < |live|
      invariant 0 <= i <= |live|
      invariant forall k :: k in best <==> BestMute(live[..i], k).Some?
      invariant forall k :: k in best ==> BestMute(live[..i], k) == Some(best[k])
    {
      var m := live[i];
      assert live[..i + 1][..i] == live[..i];
      if m.identity in best {
        if m.expiresAt > best[m.identity].expiresAt {
          best := best[m.identity := m];
        }
      } else {
        best := best[m.identity := m];
      }
      i := i + 1;
    }
    assert live[..i] == live;
  }

  /** The reports whose body one state has and the next has not. */
  ghost function Cleared(before: map<string, ReportRow>, after: map<string, ReportRow>): set<string> {
    set id | id in before && id in after && before[id].raw.Some? && after[id].raw.None?
  }

  lemma IngestParts(db: Db, a: Arrival, db': Db)
    requires Tables.Valid(a) && a.upload.id !in db.reports
    requires db'.reports == db.reports[a.upload.id := RowOf(a)]
    requires db'.checks == db.checks + CheckRowsOf(a)
    requires db'.latest == Advance(db.latest, a.From(), a.Stamp())
    requires db'.since == if db'.latest[a.From()].reportId == a.upload.id then Reopen(db.since, a) else db.since
    requires db'.mutes == db.mutes && db'.retirements == db.retirements
    ensures db' == AfterIngest(db, a)
  {
  }

  ghost function BadKeysUpTo(a: Arrival, n: nat): set<Identity>
    requires n <= |a.upload.checks|
  {
    set i | 0 <= i < n && a.upload.checks[i].verdict.Bad() :: Identity(a.From(), a.upload.checks[i].name)
  }

  function CollectedBefore(cutoff: Time): CheckRow -> bool {
    (c: CheckRow) => c.collectedAt < cutoff
  }
}
