/** The phone's copy of the problems view and the fingerprint it compares sets by. */
module PhoneProblems {
  import opened ReportTypes
  import opened Sequences
  import opened Json
  import Text

  datatype Problem = Problem(
    source: string,
    collector: string,
    section: string,
    name: string,
    verdict: string,
    observed: Option<string>,
    confirmed: bool)

  datatype Stale = Stale(source: string, collector: string)

  datatype Problems = Problems(checks: seq<Problem>, stale: seq<Stale>, returned: seq<Stale>) {
    predicate IsEmpty() {
      checks == [] && stale == [] && returned == []
    }

    /** Confirmed failures and silent or returned producers; never warnings. */
    function Notifiable(): Problems {
      this.(checks := Filter(checks, WorthWaking()))
    }
  }

  const WARN := "warn"

  function WorthWaking(): Problem -> bool {
    (p: Problem) => p.verdict != WARN && p.confirmed
  }

  function CheckFields(): Problem -> seq<string> {
    (p: Problem) => [p.source, p.collector, p.section, p.name, p.verdict]
  }

  function ProducerFields(kind: string): Stale -> seq<string> {
    (s: Stale) => [s.source, s.collector, kind]
  }

  /** What the fingerprint is to identify: one list of fields per entry. */
  function Entries(p: Problems): seq<seq<string>> {
    Map(p.checks, CheckFields()) + Map(p.stale, ProducerFields("stale")) + Map(p.returned, ProducerFields("returned"))
  }

  function Writing(esc: Escape): seq<string> -> string {
    (fs: seq<string>) => WriteArray(esc, fs)
  }

  /** The order of Kotlin's `sorted`. */
  function StringOrder(): (string, string) -> bool {
    (s: string, t: string) => s == t || Text.Below(s, t)
  }

  function Join(parts: seq<string>): string {
    if parts == [] then "" else if |parts| == 1 then parts[0] else parts[0] + "|" + Join(parts[1..])
  }

  function Fingerprint(esc: Escape, p: Problems): string {
    Join(Sort(Map(Entries(p), Writing(esc)), StringOrder()))
  }

  /** The same problems: the same checks by what names them, and the same producers, each
      as often. */
  ghost predicate SameProblems(p: Problems, q: Problems) {
    multiset(Map(p.checks, CheckFields())) == multiset(Map(q.checks, CheckFields()))
    && multiset(p.stale) == multiset(q.stale)
    && multiset(p.returned) == multiset(q.returned)
  }

  // ---- the joined text determines the parts ---------------------------------------------------

  /** Split a fingerprint back into its entries. */
  function ReadEntries(s: string): Option<seq<seq<string>>>
    decreases |s|
  {
    if s == "" then Some([])
    else match ReadArray(s)
      case None => None
      case Some(fr) =>
        if fr.1 == "" then Some([fr.0])
        else match ReadEntries(fr.1[1..])
          case None => None
          case Some(more) => Some([fr.0] + more)
  }

  lemma {:induction false} EntriesRoundTrip(esc: Escape, es: seq<seq<string>>)
    requires Conforming(esc)
    ensures ReadEntries(Join(Map(es, Writing(esc)))) == Some(es)
  {
    var parts := Map(es, Writing(esc));
    if es != [] {
      var first := WriteArray(esc, es[0]);
      var rest := if |es| == 1 then "" else "|" + Join(parts[1..]);
      assert Join(parts) == first + rest by {
        assert first + "" == first;
        assert first + "|" + Join(parts[1..]) == first + ("|" + Join(parts[1..]));
      }
      ArrayRoundTrip(esc, es[0], rest);
      assert es == [es[0]] + es[1..];
      if |es| > 1 {
        assert parts[1..] == Map(es[1..], Writing(esc));
        EntriesRoundTrip(esc, es[1..]);
        assert rest[1..] == Join(parts[1..]);
      } else {
        assert es == [es[0]];
      }
    }
  }

  function ReadOne(): string -> seq<string> {
    (s: string) => match ReadArray(s) case None => [] case Some(fr) => fr.0
  }

  lemma ReadOneInverts(esc: Escape, es: seq<seq<string>>)
    requires Conforming(esc)
    ensures Map(Map(es, Writing(esc)), ReadOne()) == es
  {
    forall i | 0 <= i < |es| ensures ReadOne()(WriteArray(esc, es[i])) == es[i] {
      ArrayRoundTrip(esc, es[i], "");
      assert WriteArray(esc, es[i]) + "" == WriteArray(esc, es[i]);
    }
  }

  lemma StringOrderTotal()
    ensures TotalOrder(StringOrder()) && Antisymmetric(StringOrder())
  {
    forall s: string, t: string ensures StringOrder()(s, t) || StringOrder()(t, s) {
      Text.BelowTotal(s, t);
    }
    forall s: string, t: string, u: string | StringOrder()(s, t) && StringOrder()(t, u) ensures StringOrder()(s, u) {
      if s != t && t != u {
        Text.BelowTransitive(s, t, u);
      }
    }
    forall s: string, t: string | StringOrder()(s, t) && StringOrder()(t, s) ensures s == t {
      Text.BelowAsymmetric(s, t);
    }
  }

  /** Sorted entries, seen as fields again. */
  lemma SortedFields(esc: Escape, es: seq<seq<string>>)
    requires Conforming(esc)
    ensures var sorted := Sort(Map(es, Writing(esc)), StringOrder());
      multiset(Map(sorted, ReadOne())) == multiset(es) && Map(Map(sorted, ReadOne()), Writing(esc)) == sorted
  {
    var texts := Map(es, Writing(esc));
    var sorted := Sort(texts, StringOrder());
    MapPermutes(sorted, texts, ReadOne());
    ReadOneInverts(esc, es);
    forall i | 0 <= i < |sorted| ensures WriteArray(esc, ReadOne()(sorted[i])) == sorted[i] {
      assert sorted[i] in multiset(sorted);
      assert sorted[i] in texts;
      var j :| 0 <= j < |texts| && texts[j] == sorted[i];
      assert ReadOne()(texts[j]) == es[j];
    }
  }

  lemma FingerprintsEqualIffEntries(esc: Escape, es: seq<seq<string>>, fs: seq<seq<string>>)
    requires Conforming(esc)
    ensures Join(Sort(Map(es, Writing(esc)), StringOrder())) == Join(Sort(Map(fs, Writing(esc)), StringOrder()))
       <==> multiset(es) == multiset(fs)
  {
    var s, t := Sort(Map(es, Writing(esc)), StringOrder()), Sort(Map(fs, Writing(esc)), StringOrder());
    SortedFields(esc, es);
    SortedFields(esc, fs);
    if Join(s) == Join(t) {
      EntriesRoundTrip(esc, Map(s, ReadOne()));
      EntriesRoundTrip(esc, Map(t, ReadOne()));
    }
    if multiset(es) == multiset(fs) {
      MapPermutes(es, fs, Writing(esc));
      StringOrderTotal();
      SortCanonical(Map(es, Writing(esc)), Map(fs, Writing(esc)), StringOrder());
    }
  }

  // ---- the entries determine the three lists ----------------------------------------------------

  predicate FromCheck(fs: seq<string>) {
    |fs| == 5
  }

  function OfKind(kind: string): seq<string> -> bool {
    (fs: seq<string>) => |fs| == 3 && fs[2] == kind
  }

  function ToStale(): seq<string> -> Stale {
    (fs: seq<string>) => if |fs| >= 2 then Stale(fs[0], fs[1]) else Stale("", "")
  }

  /** A filter takes all of a part, or none of it. */
  lemma FilterPart<T>(part: seq<T>, keep: T -> bool, all: bool)
    requires forall i :: 0 <= i < |part| ==> keep(part[i]) == all
    ensures Filter(part, keep) == if all then part else []
  {
    if all {
      FilterAll(part, keep);
    } else {
      FilterNone(part, keep);
    }
  }

  /** So of three parts it keeps exactly the ones it takes. */
  lemma FilterParts<T>(a: seq<T>, b: seq<T>, c: seq<T>, keep: T -> bool, inA: bool, inB: bool, inC: bool)
    requires forall i :: 0 <= i < |a| ==> keep(a[i]) == inA
    requires forall i :: 0 <= i < |b| ==> keep(b[i]) == inB
    requires forall i :: 0 <= i < |c| ==> keep(c[i]) == inC
    ensures Filter(a + b + c, keep) == (if inA then a else []) + (if inB then b else []) + (if inC then c else [])
  {
    FilterAppend(a + b, c, keep);
    FilterAppend(a, b, keep);
    FilterPart(a, keep, inA);
    FilterPart(b, keep, inB);
    FilterPart(c, keep, inC);
  }

  lemma KindsDiffer()
    ensures "stale" != "returned"
  {
    assert "stale"[0] == 's' && "returned"[0] == 'r';
  }

  lemma EntriesByKind(p: Problems)
    ensures Filter(Entries(p), FromCheck) == Map(p.checks, CheckFields())
    ensures Filter(Entries(p), OfKind("stale")) == Map(p.stale, ProducerFields("stale"))
    ensures Filter(Entries(p), OfKind("returned")) == Map(p.returned, ProducerFields("returned"))
  {
    var c := Map(p.checks, CheckFields());
    var s := Map(p.stale, ProducerFields("stale"));
    var r := Map(p.returned, ProducerFields("returned"));
    KindsDiffer();
    assert forall i :: 0 <= i < |c| ==> |c[i]| == 5;
    assert forall i :: 0 <= i < |s| ==> |s[i]| == 3 && s[i][2] == "stale";
    assert forall i :: 0 <= i < |r| ==> |r[i]| == 3 && r[i][2] == "returned";
    hide Filter, Map;
    FilterParts(c, s, r, FromCheck, true, false, false);
    FilterParts(c, s, r, OfKind("stale"), false, true, false);
    FilterParts(c, s, r, OfKind("returned"), false, false, true);
  }

  lemma StaleFromFields(xs: seq<Stale>, ys: seq<Stale>, kind: string)
    ensures multiset(Map(xs, ProducerFields(kind))) == multiset(Map(ys, ProducerFields(kind)))
       <==> multiset(xs) == multiset(ys)
  {
    var fx, fy := Map(xs, ProducerFields(kind)), Map(ys, ProducerFields(kind));
    assert Map(fx, ToStale()) == xs && Map(fy, ToStale()) == ys;
    if multiset(fx) == multiset(fy) {
      MapPermutes(fx, fy, ToStale());
    }
    if multiset(xs) == multiset(ys) {
      MapPermutes(xs, ys, ProducerFields(kind));
    }
  }

  lemma EntriesEqualIffSame(p: Problems, q: Problems)
    ensures multiset(Entries(p)) == multiset(Entries(q)) <==> SameProblems(p, q)
  {
    StaleFromFields(p.stale, q.stale, "stale");
    StaleFromFields(p.returned, q.returned, "returned");
    if multiset(Entries(p)) == multiset(Entries(q)) {
      EntriesByKind(p);
      EntriesByKind(q);
      FilterPermutes(Entries(p), Entries(q), FromCheck);
      FilterPermutes(Entries(p), Entries(q), OfKind("stale"));
      FilterPermutes(Entries(p), Entries(q), OfKind("returned"));
    }
  }

  /** The main result: whatever the fields hold, two sets have one fingerprint exactly when
      they are the same problems. */
  lemma FingerprintExact(esc: Escape, p: Problems, q: Problems)
    requires Conforming(esc)
    ensures Fingerprint(esc, p) == Fingerprint(esc, q) <==> SameProblems(p, q)
  {
    FingerprintsEqualIffEntries(esc, Entries(p), Entries(q));
    EntriesEqualIffSame(p, q);
  }

  /** Only nothing has the empty fingerprint, the one a fresh phone and a recovery store. */
  lemma EmptyFingerprint(esc: Escape, p: Problems)
    requires Conforming(esc)
    ensures Fingerprint(esc, p) == "" <==> p.IsEmpty()
  {
    var none := Problems([], [], []);
    assert Entries(none) == [];
    assert Map(Entries(none), Writing(esc)) == [];
    FingerprintExact(esc, p, none);
    if SameProblems(p, none) {
      assert |multiset(p.stale)| == 0 && |multiset(p.returned)| == 0;
      assert |multiset(Map(p.checks, CheckFields()))| == |multiset(Map(none.checks, CheckFields()))| == 0;
    }
  }

  lemma SameProblemsEmpty(p: Problems, q: Problems)
    requires SameProblems(p, q)
    ensures p.IsEmpty() == q.IsEmpty()
  {
    assert |multiset(Map(p.checks, CheckFields()))| == |multiset(Map(q.checks, CheckFields()))|;
    assert |multiset(p.stale)| == |multiset(q.stale)| && |multiset(p.returned)| == |multiset(q.returned)|;
  }
}
