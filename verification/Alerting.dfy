/** The phone's alert protocol: decide, act, and remember only what was delivered. */
module Alerting {
  import opened Json
  import opened PhoneProblems

  datatype Step = Clear | Quiet | Fire

  function StepFor(esc: Escape, alerting: Problems, last: string): Step {
    if alerting.IsEmpty() then Clear
    else if Fingerprint(esc, alerting) == last then Quiet
    else Fire
  }

  function Remembered(step: Step, delivered: bool, now: string, last: string): string {
    match step
    case Clear => now
    case Quiet => last
    case Fire => if delivered then now else last
  }

  function Poll(esc: Escape, alerting: Problems, last: string, act: Step -> bool): string {
    var step := StepFor(esc, alerting, last);
    Remembered(step, act(step), Fingerprint(esc, alerting), last)
  }

  /** One poll of a run: the notifiable set it saw and whether a notification could be posted. */
  datatype Round = Round(alerting: Problems, posted: bool)

  /** Clearing and staying quiet always succeed; firing may be refused. */
  function Acting(posted: bool): Step -> bool {
    (s: Step) => s != Fire || posted
  }

  /** The stored mark after a run of polls from a fresh phone. */
  function Mark(esc: Escape, rounds: seq<Round>): string {
    if rounds == [] then ""
    else
      var n := |rounds| - 1;
      Poll(esc, rounds[n].alerting, Mark(esc, rounds[..n]), Acting(rounds[n].posted))
  }

  /** What the `i`th poll of the run did. */
  function StepAt(esc: Escape, rounds: seq<Round>, i: nat): Step
    requires i < |rounds|
  {
    StepFor(esc, rounds[i].alerting, Mark(esc, rounds[..i]))
  }

  /** The `i`th poll put a notification on the shade. */
  predicate Told(esc: Escape, rounds: seq<Round>, i: nat)
    requires i < |rounds|
  {
    StepAt(esc, rounds, i) == Fire && rounds[i].posted
  }

  /** The `k`th poll's notification is the last one delivered, and nothing cleared it since. */
  ghost predicate Standing(esc: Escape, rounds: seq<Round>, k: nat) {
    k < |rounds| && Told(esc, rounds, k)
    && forall j: nat :: k < j < |rounds| ==> !Told(esc, rounds, j) && StepAt(esc, rounds, j) != Clear
  }

  lemma EarlierSteps(esc: Escape, rounds: seq<Round>, n: nat, i: nat)
    requires i < n <= |rounds|
    ensures StepAt(esc, rounds[..n], i) == StepAt(esc, rounds, i)
    ensures Told(esc, rounds[..n], i) == Told(esc, rounds, i)
  {
    assert rounds[..n][..i] == rounds[..i];
  }

  lemma MarkStep(esc: Escape, rounds: seq<Round>, n: nat)
    requires n < |rounds|
    ensures Mark(esc, rounds[..n + 1])
         == Remembered(StepAt(esc, rounds, n), Acting(rounds[n].posted)(StepAt(esc, rounds, n)),
                       Fingerprint(esc, rounds[n].alerting), Mark(esc, rounds[..n]))
  {
    assert rounds[..n + 1][..n] == rounds[..n];
  }

  /** What stood before the last poll stands after it unless that poll told or cleared. */
  lemma StandingBefore(esc: Escape, rounds: seq<Round>, k: nat)
    requires rounds != []
    requires k < |rounds| - 1
    ensures Standing(esc, rounds, k) <==>
      Standing(esc, rounds[..|rounds| - 1], k) && !Told(esc, rounds, |rounds| - 1)
      && StepAt(esc, rounds, |rounds| - 1) != Clear
  {
    hide StepAt, Told;
    var n := |rounds| - 1;
    forall i: nat | i < n
      ensures StepAt(esc, rounds[..n], i) == StepAt(esc, rounds, i) && Told(esc, rounds[..n], i) == Told(esc, rounds, i)
    {
      EarlierSteps(esc, rounds, n, i);
    }
  }

  lemma EmptyWhenCleared(esc: Escape, rounds: seq<Round>, n: nat)
    requires Conforming(esc) && n < |rounds|
    ensures StepAt(esc, rounds, n) == Clear ==> Fingerprint(esc, rounds[n].alerting) == ""
  {
    hide Fingerprint;
    EmptyFingerprint(esc, rounds[n].alerting);
  }

  /** The mark is always the fingerprint of the last delivered notification that has not been
      cleared since, and empty when there is none. */
  lemma {:induction false} MarkIsWhatWasTold(esc: Escape, rounds: seq<Round>)
    requires Conforming(esc)
    ensures forall k: nat :: Standing(esc, rounds, k) ==> Mark(esc, rounds) == Fingerprint(esc, rounds[k].alerting)
    ensures (forall k: nat :: !Standing(esc, rounds, k)) ==> Mark(esc, rounds) == ""
  {
    hide Fingerprint, StepAt;
    if rounds != [] {
      var n := |rounds| - 1;
      assert rounds[..n + 1] == rounds;
      MarkStep(esc, rounds, n);
      MarkIsWhatWasTold(esc, rounds[..n]);
      EmptyWhenCleared(esc, rounds, n);
      forall k: nat | k < n
        ensures Standing(esc, rounds, k) <==>
          Standing(esc, rounds[..n], k) && !Told(esc, rounds, n) && StepAt(esc, rounds, n) != Clear
      {
        StandingBefore(esc, rounds, k);
      }
      if Told(esc, rounds, n) {
        assert Standing(esc, rounds, n);
      }
    }
  }

  lemma {:induction false} StandingExists(esc: Escape, rounds: seq<Round>)
    requires Conforming(esc)
    ensures Mark(esc, rounds) != "" <==> exists k: nat :: Standing(esc, rounds, k)
  {
    MarkIsWhatWasTold(esc, rounds);
    if k: nat :| Standing(esc, rounds, k) {
      EmptyFingerprint(esc, rounds[k].alerting);
    }
  }

  /** The phone stays quiet exactly when what is wrong now is what its standing notification
      said, and fires exactly when something is wrong and it said something else or nothing. */
  lemma QuietExactlyWhenAlreadyTold(esc: Escape, rounds: seq<Round>, i: nat)
    requires Conforming(esc) && i < |rounds|
    ensures StepAt(esc, rounds, i) == Clear <==> rounds[i].alerting.IsEmpty()
    ensures StepAt(esc, rounds, i) == Quiet <==>
      exists k: nat :: Standing(esc, rounds[..i], k) && SameProblems(rounds[k].alerting, rounds[i].alerting)
  {
    var before, now := rounds[..i], rounds[i].alerting;
    MarkIsWhatWasTold(esc, before);
    StandingExists(esc, before);
    EmptyFingerprint(esc, now);
    forall k: nat | Standing(esc, before, k)
      ensures Fingerprint(esc, now) == Mark(esc, before) <==> SameProblems(rounds[k].alerting, now)
    {
      FingerprintExact(esc, rounds[k].alerting, now);
    }
  }

  /** After a recovery the mark is empty, so the next failure fires, the same one included. */
  lemma RecoveryRearms(esc: Escape, rounds: seq<Round>, i: nat, j: nat)
    requires Conforming(esc) && i < j < |rounds|
    requires StepAt(esc, rounds, i) == Clear
    requires forall m: nat :: i < m < j ==> !Told(esc, rounds, m)
    requires !rounds[j].alerting.IsEmpty()
    ensures StepAt(esc, rounds, j) == Fire
  {
    StillEmpty(esc, rounds, i, j);
    EmptyFingerprint(esc, rounds[j].alerting);
  }

  lemma {:induction false} StillEmpty(esc: Escape, rounds: seq<Round>, i: nat, j: nat)
    requires Conforming(esc) && i < j <= |rounds|
    requires StepAt(esc, rounds, i) == Clear
    requires forall m: nat :: i < m < j ==> !Told(esc, rounds, m)
    ensures Mark(esc, rounds[..j]) == ""
    decreases j
  {
    hide Mark, Fingerprint;
    var n := j - 1;
    MarkStep(esc, rounds, n);
    EmptyFingerprint(esc, rounds[n].alerting);
    if n > i {
      StillEmpty(esc, rounds, i, n);
      assert !Told(esc, rounds, n);
    }
  }

  /** A notification that could not be posted is tried again: polls that see the same
      problems keep firing until one is delivered. */
  lemma {:induction false} UndeliveredFiresAgain(esc: Escape, rounds: seq<Round>, i: nat, j: nat)
    requires Conforming(esc) && i < j < |rounds|
    requires StepAt(esc, rounds, i) == Fire
    requires forall m: nat :: i <= m < j ==> !rounds[m].posted
    requires forall m: nat :: i < m <= j ==> SameProblems(rounds[i].alerting, rounds[m].alerting)
    ensures StepAt(esc, rounds, j) == Fire
    ensures Mark(esc, rounds[..j]) == Mark(esc, rounds[..i])
    decreases j
  {
    hide Mark, Fingerprint;
    var n := j - 1;
    MarkStep(esc, rounds, n);
    if n > i {
      UndeliveredFiresAgain(esc, rounds, i, n);
    }
    assert !rounds[n].posted;
    assert SameProblems(rounds[i].alerting, rounds[j].alerting);
    FingerprintExact(esc, rounds[i].alerting, rounds[j].alerting);
    SameProblemsEmpty(rounds[i].alerting, rounds[j].alerting);
  }
}
