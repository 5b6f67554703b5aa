# fleetwatch, modelled and proved

fleetwatch collects check reports from the machines of a fleet, keeps them in a database, and
shows two views: an overview with one tile per producer, and the problems that stand right now.
A phone polls the problems and raises a notification when the set changes. This project models
that path from upload to notification, with the sign-in cookie, the token list and the log
field sanitiser beside it, and proves properties of it with Dafny. `dafny verify dfyconfig.toml`
checks everything.

## How it is laid out

| files | contents |
|---|---|
| `ReportTypes`, `Text`, `Utf8`, `Sequences`, `Hex` | values, strings, their bytes, rows, hexadecimal and decimal |
| `Tables`, `Views`, `Staleness` | the database as a value, every operation and query as a function of it |
| `Store` | the same operations as the server runs them: a class over the six tables, with loops |
| `Runs`, `Summaries`, `TrueStart`, `Delivery`, `Retention`, `Backfill` | what the incrementally kept tables mean over the whole history |
| `Silence`, `Agreement`, `Overlap`, `Overlays`, `Presentation` | the two views against each other, mutes, retirements, retention |
| `Json`, `PhoneProblems`, `Alerting`, `EndToEnd` | the fingerprint, the alert protocol, and the whole path |
| `Session`, `PendingLogin`, `Telemetry`, `Tokens` | signed cookies, the pending login, the log field, the token list |

`Store` keeps a ghost log of its operations and the invariant that its tables are
`Tables.State` of that log. A theorem about every `State(ops)` is therefore a theorem about
every state the object can reach.

Conventions and the points where the code decided:

- A field called `name` is the wire's `label`, a reserved word in Dafny.
- Times are whole milliseconds, the precision the columns store. `ingest` compares the untruncated
  time with the stored one, so agreement with the ranking window is about times of that precision.
- The ULID parser's verdict, the server clock, the ids and random bytes it mints, the message
  authentication code and the range of calendar dates are parameters.
- A label absent from the newest report ends its run (src/report/repo.rs:234-266); docs/design.md:161
  still says only a pass or skip does. The longest mute is 365 days (src/report/repo.rs:38), not the
  90 of docs/design.md:217. A zero interval is floored at one second (src/report/staleness.rs:21),
  though the comment above it says at the default.
- Integer overflow is that of a release build: it wraps.
- `problems` reads the clock and the tables several times; here it is one reading at one instant.
- Query results follow their ORDER BY; where that leaves ties, rows keep insertion order.
- A header's text is readable when it is visible ASCII: space to tilde, and the tab. That rule and the
  phone's JSON writer belong to libraries that are not part of this model.
- The fingerprint sorts by code point, Kotlin by UTF-16 unit; the theorem uses only that the order
  is total and antisymmetric.

## Model

| member | source | states |
|---|---|---|
| `Summaries.PointerIsTheWindow` | src/report/repo.rs:26-31 | After every run of operations the pointer table has a row for exactly the producers with reports, names each one's (collected_at, id)-greatest report, caches that report's own time, and equals the ranking window |
| `Summaries.PointerIsGreatest` | src/report/repo.rs:26-31 | Every other report of a producer was collected before the one its pointer names, or at the same millisecond under a smaller id |
| `Text.BelowExactly` | src/report/repo.rs:26-31 | One id is smaller than another when it ends first or has the smaller code point where they first differ |
| `Summaries.RebuildIsIdle` | src/report/repo.rs:321-335 | In every reachable state a rebuild changes nothing |
| `Summaries.RebuildRestores` | migrations/0005_latest_report.sql:36-44 | From any corrupted pointer table a rebuild restores the true one if and only if the table holds no row for a producer without reports |
| `Summaries.FirstSeenIsRunStart` | src/report/repo.rs:194-267 | A label is open exactly when the longest suffix of its producer's records that all show it failing is not empty, and its `first_seen` is the collection time of the first report of that suffix, over every run and every order of delivery |
| `TrueStart.TrueStartKeptExactly` | src/report/repo.rs:194-267 | In every run and every order of delivery: when a fault's true start is the report `a` (from it on, by collection and id, every report of the producer shows the label, and from no older one), the run is kept from `a` if and only if on arrival `a` took its producer's pointer and found the label not open; the stored `first_seen` is then the true one, and only then if no other report of the producer has that collection time |
| `TrueStart.OpenExactlyWhenStarted` | src/report/repo.rs:211-267 | A label is open exactly when its fault has a true start, and then it has one |
| `TrueStart.InOrderStartIsTrue` | src/report/repo.rs:213-216 | With in-order delivery the condition always holds: the start is that of the longest failing suffix of everything the producer sent, and it is the true one |
| `TrueStart.LateDeliveryMovesTheStart` | src/report/repo.rs:194-202 | Unlike the open labels, the start depends on the order of delivery: of any two failures of a label that are the first a producer sends, the older dates the fault if it is delivered first, and the newer one if it is not |
| `TrueStart.LateDeliveryExample` | src/report/repo.rs:194-202 | An input on which the stored start is not the true one |
| `Summaries.OpenLabelsAreNewestFailures` | src/report/repo.rs:211-267 | A producer's open labels are exactly the fail or warn labels of its newest report, repeats included, and no `first_seen` exceeds that report's time |
| `Summaries.DamageEndsAtNextNewest` | src/report/repo.rs:234-267 | Whatever `problem_since` was damaged to, the next report that takes its producer's pointer restores that producer's open labels and leaves everyone else's rows alone |
| `Runs.LastRecordGreatest` | src/report/repo.rs:161-178 | The last report that exceeded all its predecessors on arrival is the greatest of all |
| `Runs.RecordIffNewerThanLast` | src/report/repo.rs:168-178 | Comparing with the stored pointer alone decides whether a report exceeds every earlier one |
| `Runs.Reachable` | src/report/repo.rs:52-276 | The invariant of all four fact tables against the history holds after every run of ingests, sweeps, rebuilds, mutes and retirements |
| `Summaries.StoredReportIsFaithful` | src/report/repo.rs:98-138 | Whatever else is done, an accepted report stays stored with its producer, schema, times, interval and the count of each verdict, and its `ok` means no check failed |
| `Summaries.StoredChecksAreFaithful` | src/report/repo.rs:146-159 | Its check rows are, in order, the checks it carried, each with the report id, position, producer and time of the report, or all gone to a sweep |
| `Retention.RetainedExactly` | src/report/retention.rs:16-36 | After any run, an upload stored by its n-th operation has its row with the raw body unless a later sweep's cutoff passed its receipt, and all its check rows unless a later sweep's cutoff passed its collection, and then none |
| `Backfill.MaintainedEqualsDerived` | migrations/0006_problem_since.sql:41-60 | After any run, for a producer reporting in order, after the epoch, with the label exactly once per report, and none of whose check rows has been swept, the maintained `first_seen` equals the backfill query's answer, present and absent alike |
| `Backfill.RunStartIsStarted` | migrations/0006_problem_since.sql:45-53 | The first report of the run is the query's MIN of failures after the last pass or skip |
| `Delivery.DeliveryIsConfluent` | src/report/repo.rs:113-267 | Two runs without sweeps that deliver the same valid uploads, in any order, with any repeats and with any mutes, retirements and rebuilds between, end with the same reports (but for `received_at`), the same check rows as a multiset, the same pointers and the same open labels |
| `Delivery.AcceptedExactly` | src/report/repo.rs:58-96 | An upload is accepted exactly when schema, id and collector are good and every check has a non-blank label and identity fields of at most 255 bytes; otherwise the refusal gives the first of these reasons that applies, and for a check its position and what is wrong with it |
| `Delivery.AnswerTells` | src/report/repo.rs:52-276 | A refusal changes nothing and gives the reason; an acknowledgement repeats the id, says duplicate exactly when no report was added, and counts the check rows added |
| `Delivery.DeliveryShowsTheSameOverview` | src/report/repo.rs:378-416 | Two such runs that also end with the same mutes show the same overview at every instant |
| `Delivery.DeliveryShowsTheSameProblems` | src/report/repo.rs:473-592 | With the same mutes and retirements they show the same problems view: the same rows in the same order in all five lists, with only `first_seen` and `confirmed` of an open row free to differ |
| `ReportStore.Store.Ingest` | src/report/repo.rs:52-276 | The imperative ingest, tied to the step the theorems are about; its acknowledgement repeats the id, says duplicate exactly when the report keys did not change and counts the rows by which the check table grew; a refusal changes nothing |
| `ReportStore.Store.Upsert` | src/report/repo.rs:168-192 | The two assignments of the upsert, run in order, leave the greater of the stored and the new (collected_at, id) |
| `ReportStore.Store.OpenRuns` | src/report/repo.rs:211-232 | After the INSERT IGNORE loop the keys are the old ones and the failing labels, an open run keeping its start |
| `ReportStore.Store.EndRuns` | src/report/repo.rs:234-266 | The DELETE keeps exactly the other producers' runs and those the upload shows failing, starts unchanged |
| `ReportStore.Store.RebuildLatestReport` | src/report/repo.rs:321-335 | The repair replaces the pointers by the window wherever the window has a row, and nothing else |
| `ReportStore.Store.RetentionSweep` | src/report/retention.rs:16-36 | The new tables of a sweep and the counts it answers |
| `ReportStore.Store.CreateMute` | src/report/repo.rs:699-750 | Blank fields are refused, a colliding id is the primary key's error, otherwise the mute answered is appended |
| `ReportStore.Store.DeleteMute` | src/report/repo.rs:793-799 | Exactly the mutes with the id go, the others stay, and the answer says whether there was one |
| `ReportStore.Store.CreateRetirement` | src/report/repo.rs:646-684 | Refused exactly when a trimmed field is blank; otherwise the trimmed key holds the new reason and author with the time of now, or the original time if it was retired already, and that row is answered |
| `ReportStore.Store.DeleteRetirement` | src/report/repo.rs:688-696 | The retirement is removed and the answer says whether there was one |
| `ReportStore.Store.Overview` | src/report/repo.rs:378-416 | The tiles of the tables at one instant, in source and collector order |
| `ReportStore.Store.Problems` | src/report/repo.rs:473-592 | The four loops compute the problems view of the tables at one instant |
| `ReportStore.BestByIdentity` | src/report/repo.rs:488-501 | The and_modify/or_insert loop ends with each identity's best listed mute |
| `ReportStore.PartitionRows` | src/report/repo.rs:503-541 | The row loop splits the rows into open and muted ones |
| `ReportTypes.VerdictRoundTrip` | src/report/types.rs:34-56 | The spelling a verdict column holds parses back to that verdict and nothing else parses to it, so reading a problem row back cannot fail |
| `ReportStore.PartitionTiles` | src/report/repo.rs:552-572 | The tile loop splits the tiles into stale and returned ones |
| `ReportStore.Validate` | src/report/repo.rs:58-96 | The validation loop answers the first refusal |
| `ReportStore.Tally` | src/report/repo.rs:98-107 | The four counters count the checks of each verdict and sum to the number of checks |
| `Agreement.ViewsAgree` | src/report/repo.rs:341-442 | With at most one live mute per identity and unswept rows, a tile's fail, warn and muted counts equal the producer's rows in the problems view, and pass + warn + fail + skip + muted = total = the number of checks uploaded |
| `Agreement.TileCountExactly` | src/report/repo.rs:378-426 | Without that hypothesis, and with unswept rows: a tile's count of a verdict equals the problems view's if and only if that verdict has no open row or no check of it is under two live mutes; its muted count does if and only if no failing or warning check is; and the five counts make the total if and only if neither join exceeds what it is taken from |
| `Agreement.JoinCountsPairs` | src/report/repo.rs:389-404 | The muted count of a verdict is the number of pairs of a check row of that verdict and a live mute of its identity |
| `Agreement.TileNeverOvercounts` | src/report/repo.rs:418-426 | Whatever the mutes, with unswept rows a tile never shows more failures or warnings than the problems view |
| `Agreement.WorstExactly` | src/report/repo.rs:341-351 | With unswept rows and any mutes, a tile's `worst` is the most severe verdict among the checks no live mute covers (skip when there are none) if and only if the join leaves something of the most severe verdict the problems view lists open |
| `Agreement.WorstIsMaximum` | src/report/repo.rs:341-351 | So it is whenever no identity has two live mutes |
| `Overlap.OverlapHidesAFailure` | src/report/repo.rs:395-404 | A reachable state in which two mutes on one failing check take another, unmuted one off the tile: it shows no failure and `worst` skip while the problems view lists an open failure |
| `Agreement.OverviewTiles` | src/report/repo.rs:389-409 | In a reachable state the overview holds exactly the tile of each producer's newest report |
| `Presentation.OverviewListsEachProducerOnce` | src/report/repo.rs:409-416 | The overview lists every producer that ever reported once, ordered by source and collector |
| `Presentation.ProblemsInOrder` | src/report/repo.rs:474-484 | The open problems show check rows one for one; no warning precedes a failure, and rows of a verdict come by producer, section and position in their report |
| `Presentation.HistoryCompleteAndOrdered` | src/report/repo.rs:947-988 | A history shows the stored rows of its source, collector, section and label in the inclusive window, each as often as stored, oldest first, with time, verdict and value |
| `Presentation.HistoryUnitIsMostRecent` | src/report/repo.rs:968-969 | A history has a unit exactly when one of its rows does, and then that of a most recent row with one |
| `Silence.EveryBadRowLandsOnce` | src/report/repo.rs:488-541 | A failing or warning row of a latest report is shown under `muted`, every field and the mute's id, reason and expiry, if a live mute covers its identity, and under `checks` otherwise; its identity never appears in the other list |
| `Silence.ListsDivideTheBadRows` | src/report/repo.rs:503-541 | The two lists together are as many as the bad rows of the latest reports |
| `Silence.NothingIsInvented` | src/report/repo.rs:521-540 | Every open problem shows a stored, failing or warning row of a newest report that no live mute covers |
| `Silence.NoSilenceIsInvented` | src/report/repo.rs:503-522 | Every muted entry shows, field for field, a stored failing or warning row of a newest report under a stored live mute of greatest expiry, of equals one created last, with that mute's id, reason and expiry |
| `Silence.OverlayMute` | src/report/repo.rs:488-501 | The overlay finds a mute exactly when a live one covers the identity, and none that covers it expires later |
| `Silence.ListingOrderIrrelevant` | src/report/repo.rs:766-787 | The order mutes are listed in decides neither whether an identity is silenced nor until when |
| `Silence.SilenceIsBounded` | src/report/repo.rs:716-722 | Once 8760 hours have passed since the last create_mute for an identity, no mute covers it and none of its rows is under `muted` |
| `Silence.EveryMuteIsAccountable` | src/report/repo.rs:704-735 | Every stored mute has a reason, a full identity and a creator, was made by a create_mute of the run, and lasts the hours asked for, held between 1 and 8760 |
| `Silence.MutesExactly` | src/report/repo.rs:699-799 | A mute is stored exactly when some create_mute of the run made it, trimmed and not blank, for the hours asked for held between 1 and 8760, under an id no stored mute had, and no delete_mute of its id came after; ids are distinct |
| `Silence.ListedNewestFirst` | src/report/repo.rs:766-787 | The mutes listed are the stored ones that have not expired, the newest first |
| `Silence.LapsingExactlyAtTheEnd` | src/report/repo.rs:606-610 | A mute is announced as lapsing exactly during its final min(ttl/4, 48 h) of life, which is positive and never covers its creation |
| `Overlays.ReturnedExactly` | src/report/repo.rs:552-567 | At any instant `returned` lists exactly the retired producers whose newest report was collected after the retirement |
| `Overlays.StaleExactly` | src/report/repo.rs:566-571 | `stale` lists exactly the unretired producers whose newest report is not fresh |
| `Overlays.StaleInMilliseconds` | src/report/repo.rs:566-571 | An unretired producer is in `stale` exactly when the milliseconds since its newest report reach one and a half declared cadences (an hour if none is declared), to the whole second |
| `Overlays.ReturnIsNeverForgiven` | src/report/repo.rs:637-684 | Once a producer is in `returned`, any run of later ingests, replays, re-retirements, mute changes, sweeps and rebuilds, at any later reading, leaves it there, unless it is un-retired |
| `Overlays.RetirementsExactly` | src/report/repo.rs:637-696 | A producer is retired exactly when an acceptable retirement naming it, trimmed, came since it was last un-retired; the first of these dates it and the last gives its reason and author |
| `Overlays.SweepKeepsFacts` | src/report/retention.rs:16-36 | A sweep keeps every report row but its raw body, every pointer, open run, mute and retirement, and invents no check row |
| `Overlays.SweepTakesExactly` | src/report/retention.rs:16-36 | What a sweep takes are the bodies received before the one cutoff and the check rows collected before the other, all of them |
| `Overlays.SweepKeepsHistory` | src/report/retention.rs:26-33 | A history window starting at or after the check cutoff reads the same before and after a sweep |
| `Overlays.SweepsCompose` | src/report/retention.rs:17-33 | Two sweeps with cutoffs that do not go back equal one sweep with the later cutoffs |
| `Overlays.SweepKeepsRecentTile` | src/report/retention.rs:26-33 | The tile of a report collected since the cutoff survives the sweep unchanged |
| `Overlays.LateReportIsInvisible` | src/report/repo.rs:194-211 | A report that does not take its producer's pointer changes neither view, at any instant |
| `Overlays.TileOnlyDegrades` | src/report/repo.rs:418-433 | Between any two states of a run, while a producer's tile shows the same report its freshness only degrades as the clock advances, whatever interval was declared and for every age below 2^62 seconds |
| `Overlays.TileAgeExactly` | src/report/repo.rs:418-420 | The age on a tile is the whole seconds since its collection, toward zero, for collections ahead of the clock too |
| `Overlays.TileFreshnessExactly` | src/report/repo.rs:418-433 | Within the overflow bounds a tile is fresh or silent exactly as the milliseconds since its collection and its declared cadence, an hour when undeclared, say |
| `Overlays.NewerReportIsNoStaler` | src/report/repo.rs:418-433 | Between any two states of a run, at one instant a producer's later tile with the same declared interval shows a collection no older and is no staler |
| `Staleness.MatchesBands` | src/report/staleness.rs:18-30 | Within the overflow bounds the 64-bit integer form is the rational 1.5x and 3x bands |
| `Staleness.BandsExactly` | src/report/staleness.rs:18-30 | For a declared interval i every age below 2^62 in magnitude is classified as the bands say if and only if i <= (2^63 - 1) / 3 |
| `Staleness.Misread` | src/report/staleness.rs:19-25 | An oversized interval always has a sane age it misreads: the cast goes negative or the tripling wraps |
| `Staleness.OnlyDegradesWithAge` | src/report/staleness.rs:18-30 | Below 2^62 seconds a greater age is never fresher, for every declared interval, misread ones included |
| `PhoneProblems.FingerprintExact` | android/app/src/main/kotlin/org/xinutec/fleetwatch/Problems.kt:48-71 | Two problem sets have one fingerprint if and only if their checks agree as multisets of (source, collector, section, label, verdict) and their stale and returned producers agree as multisets, whatever characters the fields hold and whatever JSON writer is used, as long as the grammar reads back what it writes |
| `PhoneProblems.EmptyFingerprint` | android/app/src/main/kotlin/org/xinutec/fleetwatch/Problems.kt:28-28 | Only the empty problem set has the empty fingerprint |
| `Json.ArrayRoundTrip` | android/app/src/main/kotlin/org/xinutec/fleetwatch/Problems.kt:55-64 | Around strings that are read back, an array is read back by the grammar of RFC 8259, whatever follows it |
| `Json.WriterConforms` | android/app/src/main/kotlin/org/xinutec/fleetwatch/Problems.kt:55-58 | A character-by-character writer is read back whenever each spelling is one section 7 of RFC 8259 allows, even if it depends on the neighbouring character |
| `Json.KnownMannersConform` | android/app/src/main/kotlin/org/xinutec/fleetwatch/Problems.kt:55-58 | Four manners of escaping conform: only what must be; every short escape, the slash included; the slash only behind `<` with further characters as hexadecimal; and ASCII alone, with surrogate pairs |
| `Alerting.MarkIsWhatWasTold` | android/app/src/main/kotlin/org/xinutec/fleetwatch/Alerting.kt:39-73 | Over any run of polls the mark is the fingerprint of the last delivered notification not cleared since, and empty when there is none |
| `Alerting.QuietExactlyWhenAlreadyTold` | android/app/src/main/kotlin/org/xinutec/fleetwatch/Alerting.kt:31-37 | A poll clears exactly when nothing is notifiable and stays quiet exactly when the standing notification said these same problems |
| `Alerting.RecoveryRearms` | android/app/src/main/kotlin/org/xinutec/fleetwatch/Alerting.kt:50-52 | After a recovery the next notifiable set fires, the same one included |
| `Alerting.UndeliveredFiresAgain` | android/app/src/main/kotlin/org/xinutec/fleetwatch/Alerting.kt:43-56 | While notifications cannot be posted the same problems keep firing and the mark does not move |
| `EndToEnd.StandingFailureReachesThePhone` | android/app/src/main/kotlin/org/xinutec/fleetwatch/Watch.kt:67-109 | Over any interleaving of server operations, clock ticks and polls: an unswept, unmuted failure of a newest report whose run began in an earlier-collected record is in the set a poll decides on, and after the poll the mark names that set, or nothing was delivered and the next poll to see the same problems fires, however many polls see other problems first |
| `EndToEnd.ConfirmedExactly` | src/report/repo.rs:538-539 | Every problem row of a reachable state knows its run's start and is confirmed exactly when that start was collected strictly before the newest report |
| `EndToEnd.FailureIsNotifiable` | android/app/src/main/kotlin/org/xinutec/fleetwatch/Problems.kt:45-45 | A standing failure survives the notifiable filter under the name the fingerprint uses |
| `EndToEnd.OnlyStandingFailuresWake` | android/app/src/main/kotlin/org/xinutec/fleetwatch/Problems.kt:45-45 | Every check in the set a poll decides on is a stored, unmuted failure of a newest report whose run began strictly before that report |
| `EndToEnd.SilentOrReturnedIsNotifiable` | android/app/src/main/kotlin/org/xinutec/fleetwatch/Problems.kt:45-45 | A producer is in the phone's set as stale or as returned exactly when it is in the server's view as that |
| `Session.SignedVerifies` | src/session.rs:31-48 | A signed value verifies to itself, dots and all |
| `Session.VerifiedIsTagged` | src/session.rs:40-48 | A cookie verifies to a value exactly when it is that value, a dot and a hex spelling of its own tag |
| `PendingLogins.CookieRoundTripsExactly` | src/pending_login.rs:39-72 | Signing, verifying and decoding gives the login back with its expiry floored to a second if and only if the nonce holds no bar and the destination is not the empty string |
| `PendingLogins.DecodeOfEncode` | src/pending_login.rs:42-71 | A login with a bar-free nonce decodes to what the cookie keeps of it, even with bars in the destination, or to nothing when its expiry is outside the calendar |
| `PendingLogins.DecodeExactly` | src/pending_login.rs:52-71 | Text decodes exactly when it is a 64-bit number of seconds within the calendar, a bar-free nonce, a 0 or 1 and a destination between bars, and to the login that says |
| `PendingLogins.AcceptedLoginsAreTraced` | src/pending_login.rs:102-121 | With an unforgeable code, an accepted callback presents the nonce of its own cookie, and that cookie goes back to one login through at most one retry, keeps its destination, and is used within one time to live of the login, or two after a retry |
| `PendingLogins.NoSecondRetry` | src/pending_login.rs:96-120 | A callback is answered with a retry only for the cookie of a login itself, within its time to live |
| `PendingLogins.FreshIsAnswered` | src/pending_login.rs:73-121 | The cookie signed for a login, first attempt or second, presented at any time with any state: until its expiry, ten minutes after the issue floored to a second, its own nonce is accepted, an absent or empty state earns a first attempt a retry and a second nothing, and any other state nothing; after it there is no answer |
| `PendingLogins.LoginsComplete` | src/pending_login.rs:73-121 | Every login can be completed within its life, at once or, when the first callback came without a state, with the cookie of the retry |
| `PendingLogins.StrangersAreIgnored` | src/pending_login.rs:102-108 | Without a cookie, or with one that does not verify or decode, there is no answer |
| `PendingLogins.Descent` | src/pending_login.rs:105-121 | Every login a callback is answered with descends from one issue through at most one retry, and its flag says which |
| `PendingLogins.SessionIdIsNoLogin` | src/session.rs:58-71 | A session id, signed under the same secret, is never read as a pending login |
| `Telemetry.OneLineIsSqueeze` | src/routes/telemetry.rs:103-121 | The result is the first `max` characters of a one-pass squeeze that keeps visible characters and turns each gap into one space |
| `Telemetry.OneLineHarmless` | src/routes/telemetry.rs:86-102 | Nothing but visible characters and single inner spaces reaches the log, no space in front, and no more than `max` characters |
| `Telemetry.OnlyTroubleIsTaken` | src/routes/telemetry.rs:75-121 | By code points: no control, hidden, reordering or line-breaking character reaches the log and spaces only singly between words, while text that is like that already, ends with a word and fits reaches it unchanged |
| `Telemetry.AgainOnlyDropsTheCutSpace` | src/routes/telemetry.rs:103-121 | A second application changes nothing but a trailing space left by the cut |
| `Tokens.ParseTokens` | src/config.rs:82-100 | The loop answers the pairs of the entries in order, blank ones skipped, or the first refusal |
| `Tokens.ParsedExactly` | src/config.rs:78-100 | One entry that is not blank and lacks a colon or a part refuses the whole list; otherwise the pairs are, in order, what stands on either side of the first colon of each such entry, trimmed |
| `Tokens.TokenListRoundTripsExactly` | src/config.rs:78-100 | Printing a list of pairs and parsing it gives the list back if and only if every part is trimmed, non-empty and free of commas and every source free of colons |
| `Tokens.CtEq` | src/auth.rs:13-22 | The XOR and OR accumulator decides byte equality |
| `Utf8.Injective` | src/auth.rs:64-64 | Comparing the encoded bytes of two strings compares the strings |
| `Utf8.Length` | src/report/repo.rs:82-95 | Lengths in bytes are those RFC 3629 gives each code point |
| `Text.TrimExactly` | src/report/repo.rs:77-86 | Trimming cuts white space off both ends and nothing else |
| `Text.WhitespaceExactly` | src/report/repo.rs:77-86 | White space is the 25 code points with that property |
| `Tokens.Authenticate` | src/auth.rs:58-69 | The loop answers the source of the last pair with the presented token |
| `Tokens.SourceOfSpec` | src/auth.rs:58-69 | The source answered is that of the last pair with the token, and there is none exactly when no pair has it |
| `Tokens.BearerExactly` | src/auth.rs:25-35 | A header of visible ASCII carries the trimmed rest behind one of two spellings of the scheme, when that is not empty |
| `Tokens.AuthenticateRead` | src/auth.rs:43-54 | A reader is admitted exactly when its token is in the list |
| `Tokens.PresentableExactly` | src/auth.rs:25-35 | A header can present a token if and only if the token is visible ASCII, trimmed and not empty |
| `Tokens.TokensAreIdentities` | src/auth.rs:56-69 | Print a list of sayable pairs with distinct tokens and parse it: presenting the i-th token answers the i-th source if and only if the token is visible ASCII, no header presents it otherwise, and any other header answers none |
| `Tokens.UnpresentableToken` | src/config.rs:82-100 | A token the configuration accepts and no request can ever authenticate with |

## Left out

- SQL engine behaviour: collations, column widths, strict-mode truncation errors, isolation, locking and
  rollback after a failed statement. Identities are exact strings and each operation is atomic.
- Widths of the u32 counters: four billion checks in one report would be needed to wrap them.
- Hand deletion of reports and the foreign key's cascade; normal service never deletes a report.
- A query in a state whose pointers share a report: two pointers to one report would join its rows twice.
  No reachable state has such pointers.
- `rows_affected` of the rebuild statement, which the server counts in its own way for updated rows.
- Overflow of a retention period so long that the cutoff leaves the calendar.
- `list_reports` and `report_detail`: filters and projections of the stored rows.
- Parsing of uploads and of `/api/problems`, and the phone's rendering of a notification.
- `observed` and the other descriptive fields on the phone: the fingerprint ignores them by design.
- UTF-16: strings are sequences of Unicode scalar values, so a lone surrogate cannot be expressed.
- Session rows (`create_session`, `get_session`, `sweep_expired`) beyond the signing of their ids.
- `validate_return_to`: its meaning is that of a URL parser that is not part of this model.
- HTTP routing, cookie attributes, TLS, the Nextcloud exchange, WorkManager scheduling and the web frontend.
- `parse_read_tokens`, `selfcheck.rs` and `board.rs`: thresholds and formatting.
- Timing of the constant-time comparison: only its answer is modelled.
- Delivery.DeliveryIsConfluent: is about runs without sweeps; what a sweep deletes depends on when it runs
  between the deliveries.
- Summaries.FirstSeenIsRunStart: is about tables that were empty at the start; rows written by the
  migration's backfill before the first ingest are not in a run.
