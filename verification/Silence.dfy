/** What a mute silences, for how long, and that nothing bad ever falls between the two
    lists of the problems view. */
module Silence {
  import opened ReportTypes
  import opened Sequences
  import opened Tables
  import opened Views
  import Text

  // ---- the overlay goes by the live mute of greatest expiry ---------------------------------

  ghost predicate Covers(m: Mute, k: Identity, now: Time) {
    m.identity == k && Live(m, now)
  }

  lemma {:induction false} BestMuteSpec(ms: seq<Mute>, k: Identity)
    ensures BestMute(ms, k).Some? <==> exists m :: m in ms && m.identity == k
    ensures BestMute(ms, k).Some? ==>
      var best := BestMute(ms, k).value;
      best in ms && best.identity == k && forall m :: m in ms && m.identity == k ==> m.expiresAt <= best.expiresAt
  {
    if ms != [] {
      var init := ms[..|ms| - 1];
      assert ms == init + [Last(ms)];
      BestMuteSpec(init, k);
      assert forall m :: m in ms <==> m in init || m == Last(ms);
    }
  }

  /** Of several that expire last it is the first listed. */
  lemma {:induction false} BestMuteIsFirst(ms: seq<Mute>, k: Identity) returns (i: nat)
    requires BestMute(ms, k).Some?
    ensures i < |ms| && ms[i] == BestMute(ms, k).value
    ensures forall j :: 0 <= j < i && ms[j].identity == k ==> ms[j].expiresAt < ms[i].expiresAt
  {
    var n := |ms| - 1;
    BestMuteSpec(ms[..n], k);
    if BestMute(ms, k) == BestMute(ms[..n], k) {
      i := BestMuteIsFirst(ms[..n], k);
    } else {
      i := n;
      forall j | 0 <= j < n && ms[j].identity == k ensures ms[j].expiresAt < ms[n].expiresAt {
        assert ms[..n][j] in ms[..n];
      }
    }
  }

  /** The mutes listed are the stored ones that have not expired, the newest first. */
  lemma ListedNewestFirst(db: Db, now: Time)
    ensures var live := ListMutes(db, now);
      (forall m :: multiset(live)[m] == if m.expiresAt > now then multiset(db.mutes)[m] else 0)
      && forall i, j :: 0 <= i < j < |live| ==> live[i].createdAt >= live[j].createdAt
  {
    forall m ensures multiset(ListMutes(db, now))[m] == if m.expiresAt > now then multiset(db.mutes)[m] else 0 {
      FilterMultiplicity(db.mutes, LiveAt(now), m);
    }
    ListedInOrder(db, now);
  }

  lemma ListedInOrder(db: Db, now: Time)
    ensures var live := ListMutes(db, now);
      forall i, j :: 0 <= i < j < |live| ==> live[i].createdAt >= live[j].createdAt
  {
    assert TotalOrder(NewestFirst());
    SortOrdered(Filter(db.mutes, LiveAt(now)), NewestFirst());
    var live := ListMutes(db, now);
    forall i, j | 0 <= i < j < |live| ensures live[i].createdAt >= live[j].createdAt {
      assert NewestFirst()(live[i], live[j]);
    }
  }

  lemma ListedIffLive(db: Db, now: Time, m: Mute)
    ensures m in ListMutes(db, now) <==> m in db.mutes && Live(m, now)
  {
    var live := Filter(db.mutes, LiveAt(now));
    FilterMember(db.mutes, LiveAt(now), m);
    assert m in live <==> m in multiset(live);
    assert m in Sort(live, NewestFirst()) <==> m in multiset(Sort(live, NewestFirst()));
  }

  /** The overlay's mute for an identity: one exists exactly when a live mute covers it, and
      it expires no earlier than any other that does. */
  lemma OverlayMute(db: Db, now: Time, k: Identity)
    ensures var best := BestMute(ListMutes(db, now), k);
      (best.Some? <==> exists m :: m in db.mutes && Covers(m, k, now))
      && (best.Some? ==> best.value in db.mutes && Covers(best.value, k, now))
      && (best.Some? ==> forall m :: m in db.mutes && Covers(m, k, now) ==> m.expiresAt <= best.value.expiresAt)
  {
    var live := ListMutes(db, now);
    BestMuteSpec(live, k);
    forall m | m in db.mutes ensures m in live <==> Live(m, now) {
      ListedIffLive(db, now, m);
    }
    if BestMute(live, k).Some? {
      ListedIffLive(db, now, BestMute(live, k).value);
    }
    forall m | m in live ensures m in db.mutes {
      ListedIffLive(db, now, m);
    }
  }

  /** Among the live mutes of greatest expiry it is one created last. */
  lemma OverlayMuteIsNewest(db: Db, now: Time, m: Mute)
    requires m in db.mutes && m.expiresAt > now && BestMute(ListMutes(db, now), m.identity).Some?
    requires m.expiresAt == BestMute(ListMutes(db, now), m.identity).value.expiresAt
    ensures m.createdAt <= BestMute(ListMutes(db, now), m.identity).value.createdAt
  {
    hide ListMutes, BestMute;
    var live := ListMutes(db, now);
    ListedIffLive(db, now, m);
    ListedInOrder(db, now);
    var i := BestMuteIsFirst(live, m.identity);
    var j :| 0 <= j < |live| && live[j] == m;
  }

  /** Listing order decides neither whether an identity is silenced nor until when. */
  lemma ListingOrderIrrelevant(ms: seq<Mute>, ms': seq<Mute>, k: Identity)
    requires multiset(ms) == multiset(ms')
    ensures BestMute(ms, k).Some? == BestMute(ms', k).Some?
    ensures BestMute(ms, k).Some? ==> BestMute(ms, k).value.expiresAt == BestMute(ms', k).value.expiresAt
  {
    BestMuteSpec(ms, k);
    BestMuteSpec(ms', k);
    forall m ensures m in ms <==> m in ms' {
      assert m in ms <==> m in multiset(ms);
      assert m in ms' <==> m in multiset(ms');
    }
  }

  // ---- every bad row lands exactly once -----------------------------------------------------

  lemma ProblemRowMember(db: Db, c: CheckRow)
    ensures c in ProblemRows(db) <==> c in db.checks && c.check.verdict.Bad() && Pointed(db.latest, c.reportId)
  {
    var bad := Filter(db.checks, CurrentBad(db.latest));
    FilterMember(db.checks, CurrentBad(db.latest), c);
    assert c in bad <==> c in multiset(bad);
    assert c in ProblemRows(db) <==> c in multiset(ProblemRows(db));
  }

  lemma ListedProblem(rows: seq<CheckRow>, live: seq<Mute>, since: map<Identity, Time>, p: ProblemCheck)
    ensures p in Map(Filter(rows, Unmuted(live)), ToProblem(since)) <==>
      exists c :: c in rows && BestMute(live, c.Key()).None? && p == ProblemCheckOf(c, FirstSeen(since, c))
  {
    var open := Filter(rows, Unmuted(live));
    forall c ensures c in open <==> c in rows && BestMute(live, c.Key()).None? {
      FilterMember(rows, Unmuted(live), c);
    }
    var ps := Map(open, ToProblem(since));
    forall i | 0 <= i < |open| ensures ps[i] == ProblemCheckOf(open[i], FirstSeen(since, open[i])) {
    }
    if c :| c in rows && BestMute(live, c.Key()).None? && p == ProblemCheckOf(c, FirstSeen(since, c)) {
      var i :| 0 <= i < |open| && open[i] == c;
      assert ps[i] == p;
    }
  }

  lemma ListedMuted(rows: seq<CheckRow>, live: seq<Mute>, q: MutedCheck)
    ensures q in MutedChecks(rows, live) <==>
      exists c :: c in rows && BestMute(live, c.Key()).Some? && q == MutedCheckOf(c, BestMute(live, c.Key()).value)
  {
    var silenced := Filter(rows, Muted(live));
    forall c ensures c in silenced <==> c in rows && BestMute(live, c.Key()).Some? {
      FilterMember(rows, Muted(live), c);
    }
    var qs := MutedChecks(rows, live);
    if c :| c in rows && BestMute(live, c.Key()).Some? && q == MutedCheckOf(c, BestMute(live, c.Key()).value) {
      var i :| 0 <= i < |silenced| && silenced[i] == c;
      assert qs[i] == q;
    }
  }

  /** A failing or warning row of a latest report is listed under `muted`, with a live mute
      of greatest expiry, if one covers its identity, and under `checks` otherwise; its
      identity never appears in the other list. */
  lemma EveryBadRowLandsOnce(db: Db, now: Time, c: CheckRow)
    requires c in db.checks && c.check.verdict.Bad() && Pointed(db.latest, c.reportId)
    ensures var view := ProblemsAt(db, now);
      if exists m :: m in db.mutes && Covers(m, c.Key(), now) then
        (exists m, q :: q in view.muted && ShowsMuted(db, now, c, m, q))
        && forall p :: p in view.checks ==> Identity(p.producer, p.name) != c.Key()
      else
        ProblemCheckOf(c, FirstSeen(db.since, c)) in view.checks
        && ShowsRow(db, now, c, ProblemCheckOf(c, FirstSeen(db.since, c)))
        && forall q :: q in view.muted ==> Identity(q.producer, q.name) != c.Key()
  {
    var rows, live := ProblemRows(db), ListMutes(db, now);
    ProblemRowMember(db, c);
    OverlayMute(db, now, c.Key());
    var best := BestMute(live, c.Key());
    if best.Some? {
      ListedMuted(rows, live, MutedCheckOf(c, best.value));
      ShownMuted(db, now, c);
      forall p | p in ProblemsAt(db, now).checks ensures Identity(p.producer, p.name) != c.Key() {
        ListedProblem(rows, live, db.since, p);
      }
    } else {
      ListedProblem(rows, live, db.since, ProblemCheckOf(c, FirstSeen(db.since, c)));
      forall q | q in ProblemsAt(db, now).muted ensures Identity(q.producer, q.name) != c.Key() {
        ListedMuted(rows, live, q);
      }
    }
  }

  /** And the two lists hold nothing else: they divide the bad rows of the latest reports. */
  lemma ListsDivideTheBadRows(db: Db, now: Time)
    ensures var view := ProblemsAt(db, now);
      |view.checks| + |view.muted| == |Filter(db.checks, CurrentBad(db.latest))|
  {
    var rows, live := ProblemRows(db), ListMutes(db, now);
    FilterSplit(rows, Unmuted(live), Muted(live));
    assert |multiset(rows)| == |multiset(Filter(db.checks, CurrentBad(db.latest)))|;
  }

  /** `p` shows the unmuted bad row `c` of a latest report, field for field. */
  ghost predicate ShowsRow(db: Db, now: Time, c: CheckRow, p: ProblemCheck) {
    && c in db.checks && c.check.verdict.Bad() && Pointed(db.latest, c.reportId)
    && (forall m :: m in db.mutes ==> !Covers(m, c.Key(), now))
    && p.producer == c.producer && p.reportId == c.reportId && p.collectedAt == c.collectedAt
    && p.section == c.check.section && p.name == c.check.name && p.verdict == c.check.verdict
    && p.subject == c.check.subject && p.observed == c.check.observed && p.expected == c.check.expected
    && p.docRef == c.check.docRef && p.detail == c.check.detail
    && (p.firstSeen.Some? <==> c.Key() in db.since)
    && (p.firstSeen.Some? ==> p.firstSeen.value == db.since[c.Key()])
    && (p.confirmed <==> (p.firstSeen.Some? ==> p.firstSeen.value < c.collectedAt))
  }

  /** `q` shows the muted bad row `c` of a latest report, field for field, under `m`: a live mute
      that covers its identity, of greatest expiry and among those created last. */
  ghost predicate ShowsMuted(db: Db, now: Time, c: CheckRow, m: Mute, q: MutedCheck) {
    && c in db.checks && c.check.verdict.Bad() && Pointed(db.latest, c.reportId)
    && m in db.mutes && m.identity == Identity(c.producer, c.check.name) && now < m.expiresAt
    && (forall n :: n in db.mutes && n.identity == m.identity ==>
          n.expiresAt < m.expiresAt || (n.expiresAt == m.expiresAt && n.createdAt <= m.createdAt))
    && q.producer == c.producer && q.reportId == c.reportId && q.collectedAt == c.collectedAt
    && q.section == c.check.section && q.name == c.check.name && q.verdict == c.check.verdict
    && q.subject == c.check.subject && q.observed == c.check.observed
    && q.docRef == c.check.docRef && q.detail == c.check.detail
    && q.muteId == m.id && q.reason == m.reason && q.expiresAt == m.expiresAt
  }

  lemma ShownMuted(db: Db, now: Time, c: CheckRow)
    requires c in db.checks && c.check.verdict.Bad() && Pointed(db.latest, c.reportId)
    requires BestMute(ListMutes(db, now), c.Key()).Some?
    ensures var m := BestMute(ListMutes(db, now), c.Key()).value; ShowsMuted(db, now, c, m, MutedCheckOf(c, m))
  {
    OverlayMute(db, now, c.Key());
    var m := BestMute(ListMutes(db, now), c.Key()).value;
    forall n | n in db.mutes && n.identity == m.identity
      ensures n.expiresAt < m.expiresAt || (n.expiresAt == m.expiresAt && n.createdAt <= m.createdAt)
    {
      assert n.expiresAt > now ==> Covers(n, c.Key(), now);
      if n.expiresAt == m.expiresAt {
        OverlayMuteIsNewest(db, now, n);
      }
    }
  }

  /** Whatever is listed as muted is a stored bad row of a latest report under such a mute. */
  lemma NoSilenceIsInvented(db: Db, now: Time, q: MutedCheck) returns (c: CheckRow, m: Mute)
    requires q in ProblemsAt(db, now).muted
    ensures ShowsMuted(db, now, c, m, q)
  {
    var rows, live := ProblemRows(db), ListMutes(db, now);
    ListedMuted(rows, live, q);
    c :| c in rows && BestMute(live, c.Key()).Some? && q == MutedCheckOf(c, BestMute(live, c.Key()).value);
    m := BestMute(live, c.Key()).value;
    ProblemRowMember(db, c);
    ShownMuted(db, now, c);
  }

  /** Whatever is listed is a stored bad row of a latest report. */
  lemma NothingIsInvented(db: Db, now: Time, p: ProblemCheck) returns (c: CheckRow)
    requires p in ProblemsAt(db, now).checks
    ensures ShowsRow(db, now, c, p)
  {
    var rows, live := ProblemRows(db), ListMutes(db, now);
    ListedProblem(rows, live, db.since, p);
    c :| c in rows && BestMute(live, c.Key()).None? && p == ProblemCheckOf(c, FirstSeen(db.since, c));
    ProblemRowMember(db, c);
    OverlayMute(db, now, c.Key());
  }

  // ---- how long a mute lasts -----------------------------------------------------------------

  /** The operation makes this mute: everything trimmed and not blank, and for the hours asked for,
      held between one and 8760. */
  ghost predicate Makes(op: Op, m: Mute) {
    && op.CreateMute? && m.id == op.id && m.createdBy == op.creator && m.createdAt == op.at
    && m.identity == Identity(Producer(Text.Trim(op.mute.source), Text.Trim(op.mute.collector)),
                              Text.Trim(op.mute.name))
    && m.reason == Text.Trim(op.mute.reason)
    && Text.Trim(op.mute.source) != "" && Text.Trim(op.mute.collector) != "" && Text.Trim(op.mute.name) != ""
    && Text.Trim(op.mute.reason) != ""
    && LifeIsClamped(op.mute.ttlHours, m.expiresAt - m.createdAt)
  }

  lemma MakesExactly(op: Op, m: Mute)
    requires op.CreateMute?
    ensures Makes(op, m) <==> MuteAcceptable(op.mute) && m == MuteOf(op.mute, op.creator, op.id, op.at)
  {
    hide Text.Trim;
  }

  /** The `n`th operation made the mute, and nothing took it back. */
  ghost predicate StandsFrom(ops: seq<Op>, n: nat, m: Mute) {
    && n < |ops| && Makes(ops[n], m) && (forall x :: x in State(ops[..n]).mutes ==> x.id != m.id)
    && forall j :: n < j < |ops| ==> ops[j] != DeleteMute(m.id)
  }

  /** The mutes after a run: those made under an id no stored mute had and not deleted since, each
      under its own id. */
  lemma {:induction false} MutesExactly(ops: seq<Op>, m: Mute)
    ensures m in State(ops).mutes <==> exists n: nat :: StandsFrom(ops, n, m)
    ensures var ms := State(ops).mutes; forall i, j :: 0 <= i < j < |ms| ==> ms[i].id != ms[j].id
  {
    hide Makes, MuteOf, MuteAcceptable;
    if ops != [] {
      var init, op := ops[..|ops| - 1], Last(ops);
      MutesExactly(init, m);
      StandsSnoc(init, op, m);
      assert ops == init + [op];
      MutesStep(State(init), op, m);
    }
  }

  lemma StandsSnoc(init: seq<Op>, op: Op, m: Mute)
    ensures (exists n: nat :: StandsFrom(init + [op], n, m)) <==>
      ((exists n: nat :: StandsFrom(init, n, m)) && op != DeleteMute(m.id))
      || (Makes(op, m) && forall x :: x in State(init).mutes ==> x.id != m.id)
  {
    hide State, Makes;
    var ops := init + [op];
    assert ops[|init|] == op;
    forall n: nat | n < |init| ensures StandsFrom(ops, n, m) <==> StandsFrom(init, n, m) && op != DeleteMute(m.id) {
      assert ops[..n] == init[..n] && ops[n] == init[n];
      assert forall j :: 0 <= j < |init| ==> ops[j] == init[j];
    }
    assert ops[..|init|] == init;
    assert StandsFrom(ops, |init|, m) <==> Makes(op, m) && forall x :: x in State(init).mutes ==> x.id != m.id;
  }

  lemma MutesStep(db: Db, op: Op, m: Mute)
    requires forall i, j :: 0 <= i < j < |db.mutes| ==> db.mutes[i].id != db.mutes[j].id
    ensures m in Apply(db, op).mutes <==>
      (m in db.mutes && op != DeleteMute(m.id)) || (Makes(op, m) && forall x :: x in db.mutes ==> x.id != m.id)
    ensures var ms := Apply(db, op).mutes; forall i, j :: 0 <= i < j < |ms| ==> ms[i].id != ms[j].id
  {
    hide Makes, MuteAcceptable;
    match op {
      case CreateMute(req, creator, id, at) =>
        MakesExactly(op, m);
        FoundIffPresent(db.mutes, id);
      case DeleteMute(id) =>
        FilterMember(db.mutes, WithoutId(id), m);
        FilterKeepsIds(db.mutes, WithoutId(id));
        NotMade(op, m);
      case _ =>
        NotMade(op, m);
    }
  }

  lemma NotMade(op: Op, m: Mute)
    requires !op.CreateMute?
    ensures !Makes(op, m)
  {
  }

  lemma {:induction false} FilterKeepsIds(ms: seq<Mute>, keep: Mute -> bool)
    requires forall i, j :: 0 <= i < j < |ms| ==> ms[i].id != ms[j].id
    ensures var kept := Filter(ms, keep); forall i, j :: 0 <= i < j < |kept| ==> kept[i].id != kept[j].id
  {
    if ms != [] {
      var init := ms[..|ms| - 1];
      FilterKeepsIds(init, keep);
      var kept := Filter(init, keep);
      forall i | 0 <= i < |kept| ensures kept[i].id != Last(ms).id {
        FilterMember(init, keep, kept[i]);
        var j :| 0 <= j < |init| && init[j] == kept[i];
      }
    }
  }

  ghost predicate Minted(ops: seq<Op>, m: Mute) {
    exists op :: op in ops && op.CreateMute? && MuteAcceptable(op.mute)
                 && m == MuteOf(op.mute, op.creator, op.id, op.at)
  }

  /** Every stored mute was made by a `create_mute` of the run. */
  lemma {:induction false} MutesAreMinted(ops: seq<Op>, m: Mute)
    requires m in State(ops).mutes
    ensures Minted(ops, m)
  {
    var init, op := ops[..|ops| - 1], Last(ops);
    assert ops == init + [op];
    var db := State(init);
    if op.DeleteMute? {
      FilterMember(db.mutes, WithoutId(op.id), m);
    }
    if m in db.mutes {
      MutesAreMinted(init, m);
      var made :| made in init && made.CreateMute? && MuteAcceptable(made.mute)
                  && m == MuteOf(made.mute, made.creator, made.id, made.at);
      assert made in ops;
    } else {
      assert op.CreateMute? && op in ops;
    }
  }

  /** The hours asked for, kept between one and 8760. */
  ghost predicate LifeIsClamped(asked: nat, life: int) {
    (1 <= asked <= 8760 ==> life == asked * 3_600_000)
    && (asked < 1 ==> life == 3_600_000)
    && (asked > 8760 ==> life == LONGEST_MUTE)
  }

  /** Every mute is attributable, names a full identity, and lasts between an hour and 8760:
      as long as was asked for when that is within the bounds. */
  lemma EveryMuteIsAccountable(ops: seq<Op>, m: Mute)
    requires m in State(ops).mutes
    ensures 3_600_000 <= m.expiresAt - m.createdAt <= LONGEST_MUTE
    ensures m.reason != "" && m.identity.producer.source != "" && m.identity.producer.collector != ""
            && m.identity.name != ""
    ensures exists op :: op in ops && op.CreateMute? && op.id == m.id && op.creator == m.createdBy
                         && op.at == m.createdAt && LifeIsClamped(op.mute.ttlHours, m.expiresAt - m.createdAt)
  {
    MutesAreMinted(ops, m);
  }

  const LONGEST_MUTE := 8760 * 3_600_000

  /** Once 8760 hours have passed since the last `create_mute` for an identity, nothing about
      it is silenced. */
  lemma SilenceIsBounded(ops: seq<Op>, k: Identity, now: Time)
    requires forall op :: op in ops && op.CreateMute? && MuteAcceptable(op.mute) && MuteKey(op.mute) == k ==>
               op.at + LONGEST_MUTE <= now
    ensures forall m :: m in State(ops).mutes ==> !Covers(m, k, now)
    ensures forall q :: q in ProblemsAt(State(ops), now).muted ==> Identity(q.producer, q.name) != k
  {
    hide State;
    var db := State(ops);
    forall m | m in db.mutes && m.identity == k ensures !Live(m, now) {
      MutesAreMinted(ops, m);
      var op :| op in ops && op.CreateMute? && MuteAcceptable(op.mute)
                && m == MuteOf(op.mute, op.creator, op.id, op.at);
      assert Clamp(op.mute.ttlHours) <= 8760;
    }
    OverlayMute(db, now, k);
    forall q | q in ProblemsAt(db, now).muted ensures Identity(q.producer, q.name) != k {
      ListedMuted(ProblemRows(db), ListMutes(db, now), q);
    }
  }

  /** The notice a mute gives: a quarter of its life, at most 48 hours. */
  function Notice(m: Mute): int {
    var quarter := (m.expiresAt - m.createdAt) / 4;
    if quarter < 48 * 3_600_000 then quarter else 48 * 3_600_000
  }

  /** A mute is announced as lapsing during exactly its last `Notice` and at no other time;
      the notice is positive and shorter than its life, so never at its creation. */
  lemma LapsingExactlyAtTheEnd(ops: seq<Op>, m: Mute, now: Time)
    requires m in State(ops).mutes
    ensures m in ProblemsAt(State(ops), now).lapsing <==> m.expiresAt - Notice(m) <= now < m.expiresAt
    ensures 0 < Notice(m) < m.expiresAt - m.createdAt
    ensures !IsLapsing(m, m.createdAt)
  {
    MutesAreMinted(ops, m);
    var db := State(ops);
    FilterMember(ListMutes(db, now), LapsingAt(now), m);
    ListedIffLive(db, now, m);
  }
}
