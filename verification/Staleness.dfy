/** How current a report is, in the 64-bit arithmetic of a release build. */
module Staleness {
  import opened ReportTypes

  const DEFAULT_INTERVAL_S := 3600

  const I64_MAX := 0x7FFF_FFFF_FFFF_FFFF

  /** Two's-complement wrap to a signed 64-bit integer. */
  function Wrap64(n: int): int {
    (n + 0x8000_0000_0000_0000) % 0x1_0000_0000_0000_0000 - 0x8000_0000_0000_0000
  }

  /** The interval after the cast to i64 and the floor of one. */
  function Cadence(interval: Option<U64>): int {
    var i := match interval case Some(n) => Wrap64(n) case None => DEFAULT_INTERVAL_S;
    if i < 1 then 1 else i
  }

  function FreshnessOf(ageS: int, interval: Option<U64>): Freshness {
    var c := Cadence(interval);
    if Wrap64(ageS * 2) <= Wrap64(c * 3) then Fresh
    else if ageS <= Wrap64(c * 3) then Overdue
    else Silent
  }

  /** The documented bands over the rationals: up to 1.5 intervals, up to 3, beyond. */
  function Band(ageS: int, intervalS: nat): Freshness {
    var i := (if intervalS == 0 then 1 else intervalS) as real;
    if ageS as real <= 1.5 * i then Fresh
    else if ageS as real <= 3.0 * i then Overdue
    else Silent
  }

  function Rank(f: Freshness): nat {
    match f case Fresh => 0 case Overdue => 1 case Silent => 2
  }

  /** The ages the doubling cannot overflow for. */
  predicate SaneAge(ageS: int) {
    -0x4000_0000_0000_0000 <= ageS < 0x4000_0000_0000_0000
  }

  /** Whether a declared interval is one the tripling cannot overflow for. */
  predicate SaneInterval(interval: Option<U64>) {
    interval.Some? ==> interval.value <= I64_MAX / 3
  }

  lemma WrapSmall(n: int)
    requires -I64_MAX - 1 <= n <= I64_MAX
    ensures Wrap64(n) == n
  {
  }

  lemma WrapOnce(n: int)
    requires I64_MAX < n <= I64_MAX + 0x1_0000_0000_0000_0000
    ensures Wrap64(n) == n - 0x1_0000_0000_0000_0000
  {
  }

  /** Within the bounds the integer form is the rational one. */
  lemma MatchesBands(ageS: int, interval: Option<U64>)
    requires SaneAge(ageS) && SaneInterval(interval)
    ensures FreshnessOf(ageS, interval)
         == Band(ageS, match interval case Some(n) => n case None => DEFAULT_INTERVAL_S)
  {
    var n: int := match interval case Some(n) => n case None => DEFAULT_INTERVAL_S;
    WrapSmall(n);
    WrapSmall(ageS * 2);
    WrapSmall(Cadence(interval) * 3);
  }

  /** And the bound on the interval is exact: past (2^63 - 1) / 3 some age is misread,
      either because the tripling wraps or because the cast went negative. */
  lemma BandsExactly(i: U64)
    ensures (forall a: int :: SaneAge(a) ==> FreshnessOf(a, Some(i)) == Band(a, i)) <==> i <= I64_MAX / 3
  {
    if i <= I64_MAX / 3 {
      forall a: int | SaneAge(a) ensures FreshnessOf(a, Some(i)) == Band(a, i) {
        MatchesBands(a, Some(i));
      }
    } else {
      var a := Misread(i);
      assert SaneAge(a) && FreshnessOf(a, Some(i)) != Band(a, i);
    }
  }

  /** An age that an oversized interval misreads. */
  lemma Misread(i: U64) returns (a: int)
    requires i > I64_MAX / 3
    ensures SaneAge(a) && FreshnessOf(a, Some(i)) != Band(a, i)
  {
    if i > I64_MAX {
      a := 2;
      WrapOnce(i);
      WrapSmall(4);
      WrapSmall(3);
    } else {
      WrapSmall(i);
      WrapOnce(i * 3);
      if i * 3 < 0x1_0000_0000_0000_0000 {
        a := 0;
        WrapSmall(0);
      } else {
        a := 0x3FFF_FFFF_FFFF_FFFF;
        WrapSmall(a * 2);
      }
    }
    assert Band(a, i) == Fresh;
  }

  /** Getting older never improves it, an interval that misreads some ages included. */
  lemma OnlyDegradesWithAge(a: int, b: int, interval: Option<U64>)
    requires a <= b && SaneAge(a) && SaneAge(b)
    ensures Rank(FreshnessOf(a, interval)) <= Rank(FreshnessOf(b, interval))
  {
    WrapSmall(a * 2);
    WrapSmall(b * 2);
    hide Wrap64;
  }

  /** Whole seconds between two instants, truncated toward zero as chrono does. */
  function AgeSeconds(now: Time, collectedAt: Time): int {
    var ms := now - collectedAt;
    if ms >= 0 then ms / 1000 else -((-ms) / 1000)
  }

  /** An age is the whole seconds passed, and for a collection ahead of the clock minus the whole
      seconds still to pass. */
  lemma AgeExactly(now: Time, collectedAt: Time)
    ensures collectedAt <= now ==>
      1000 * AgeSeconds(now, collectedAt) <= now - collectedAt < 1000 * (AgeSeconds(now, collectedAt) + 1)
    ensures now <= collectedAt ==>
      1000 * -AgeSeconds(now, collectedAt) <= collectedAt - now < 1000 * (1 - AgeSeconds(now, collectedAt))
  {
  }

  /** The declared cadence in seconds: an hour when none is declared, and at least a second. */
  function Declared(interval: Option<U64>): int {
    match interval
    case None => 3600
    case Some(n) => if n == 0 then 1 else n
  }

  /** Freshness from the milliseconds since the collection: fresh through the whole second that ends
      one and a half cadences, silent from the second after three. */
  lemma FreshnessInMilliseconds(now: Time, collectedAt: Time, interval: Option<U64>)
    requires -0x4000_0000_0000_0000 * 1000 <= now - collectedAt < 0x4000_0000_0000_0000 * 1000
    requires interval.Some? ==> interval.value <= 0x7FFF_FFFF_FFFF_FFFF / 3
    ensures var f := FreshnessOf(AgeSeconds(now, collectedAt), interval); var d := Declared(interval);
      (f == Fresh <==> now - collectedAt < 1000 * (3 * d / 2 + 1))
      && (f == Silent <==> now - collectedAt >= 1000 * (3 * d + 1))
  {
    var age := AgeSeconds(now, collectedAt);
    AgeExactly(now, collectedAt);
    hide AgeSeconds;
    CadenceIsDeclared(interval);
    hide Wrap64, Cadence;
    WrapSmall(age * 2);
    WrapSmall(Declared(interval) * 3);
    InMilliseconds(now - collectedAt, age, Declared(interval));
  }

  lemma CadenceIsDeclared(interval: Option<U64>)
    requires interval.Some? ==> interval.value <= I64_MAX / 3
    ensures Cadence(interval) == Declared(interval) && 1 <= Declared(interval) <= I64_MAX / 3
  {
    WrapSmall(match interval case None => 3600 case Some(n) => n);
  }

  /** From whole seconds to milliseconds. */
  lemma InMilliseconds(ms: int, age: int, d: int)
    requires 0 <= ms ==> 1000 * age <= ms < 1000 * (age + 1)
    requires ms <= 0 ==> 1000 * -age <= -ms < 1000 * (1 - age)
    requires d >= 1
    ensures age * 2 <= d * 3 <==> ms < 1000 * (3 * d / 2 + 1)
    ensures age <= d * 3 <==> ms < 1000 * (3 * d + 1)
  {
    var half := 3 * d / 2;
    assert age * 2 <= d * 3 <==> age <= half;
  }

  lemma AgeGrows(now: Time, later: Time, collectedAt: Time, newer: Time)
    requires now <= later && collectedAt <= newer
    ensures AgeSeconds(now, collectedAt) <= AgeSeconds(later, collectedAt)
    ensures AgeSeconds(now, newer) <= AgeSeconds(now, collectedAt)
  {
  }
}
