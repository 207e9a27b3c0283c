// Polling a window until what is expected of it has held for long enough.
module VerifyPolling {
  import opened Wrappers
  import opened Numbers

  const MAX_TIMEOUT_MS: nat := 10_000
  const DEFAULT_TIMEOUT_MS: nat := 5_000
  const DEFAULT_STABLE_SAMPLES: nat := 2
  const MAX_STABLE_SAMPLES: nat := 5
  const MAX_PREDICATES: nat := 8
  const POLL_INTERVAL_MS: nat := 100

  datatype Verdict = Satisfied | Unsatisfied | Unknown

  datatype Reason =
    | InvalidPredicate | UnsupportedPredicate | UntrustedSource | MultiMatch | TargetMissing
    | ObservationUnavailable | StabilityUnproven

  datatype Outcome = Outcome(index: nat, status: Verdict, reason: Option<Reason>)

  /** One sample: an outcome for each predicate. */
  type Sample = seq<Outcome>

  function Aggregate(outcomes: Sample): Verdict {
    if exists outcome <- outcomes :: outcome.status == Unsatisfied then Unsatisfied
    else if exists outcome <- outcomes :: outcome.status == Unknown then Unknown
    else Satisfied
  }

  /** Predicates are combined by conjunction, and an unsatisfied one decides before an unknown one. */
  lemma AggregateMeaning(outcomes: Sample)
    ensures Aggregate(outcomes) == Satisfied <==> forall outcome <- outcomes :: outcome.status == Satisfied
    ensures Aggregate(outcomes) == Unsatisfied <==> exists outcome <- outcomes :: outcome.status == Unsatisfied
  {
    if outcome :| outcome in outcomes && outcome.status != Satisfied {
      assert outcome.status == Unsatisfied || outcome.status == Unknown;
    }
  }

  /** A satisfied outcome that has not lasted is not reported as satisfied. */
  function Unproven(outcomes: Sample): Sample {
    seq(|outcomes|, i requires 0 <= i < |outcomes| =>
      if outcomes[i].status == Satisfied then Outcome(outcomes[i].index, Unknown, Some(StabilityUnproven)) else outcomes[i])
  }

  /** The last `k` samples up to and including number `last` were all satisfied. */
  ghost predicate Run(observe: nat -> Sample, last: nat, k: nat) {
    k <= last + 1 && forall i | last + 1 - k <= i <= last :: Aggregate(observe(i)) == Satisfied
  }

  function Remaining(deadline: nat, now: nat): nat {
    if now >= deadline then 0 else deadline - now
  }

  /** Clock readings of a loop whose clock never runs back and whose sleeps are no shorter than asked for:
      `checked(i)` is read after sample i, `resumed(i)` just before sleeping. */
  ghost predicate Timed(checked: nat -> nat, resumed: nat -> nat, deadline: nat) {
    forall i: nat {:trigger resumed(i)} :: checked(i) <= resumed(i) && Asleep(resumed(i), deadline) <= checked(i + 1)
  }

  /** The earliest time a sleep begun at `now` ends. */
  function Asleep(now: nat, deadline: nat): nat {
    now + Min(Remaining(deadline, now), POLL_INTERVAL_MS)
  }

  datatype Input = Input(pid: int, predicates: nat, timeout: Option<nat>, stableSamples: Option<nat>, malformed: bool)

  datatype Output = Output(status: Verdict, stable: bool, samples: nat, predicates: Sample)

  predicate Acceptable(input: Input) {
    && input.pid > 0 && 1 <= input.predicates <= MAX_PREDICATES
    && (input.timeout.Some? ==> input.timeout.value <= MAX_TIMEOUT_MS)
    && (input.stableSamples.Some? ==> 1 <= input.stableSamples.value <= MAX_STABLE_SAMPLES)
    && !(input.timeout == Some(0) && input.stableSamples.Some? && input.stableSamples.value > 1)
    && !input.malformed
  }

  function Timeout(input: Input): nat {
    if input.timeout.Some? then input.timeout.value else DEFAULT_TIMEOUT_MS
  }

  function Required(input: Input): nat {
    if Timeout(input) == 0 then 1
    else if input.stableSamples.Some? then input.stableSamples.value
    else DEFAULT_STABLE_SAMPLES
  }

  /** What the caller asked for: how long to wait, and how many samples in a row. */
  predicate Asked(input: Input, timeout: nat, k: nat) {
    && (match input.timeout case Some(given) => timeout == given case None => timeout == 5_000)
    && (match input.stableSamples case Some(given) => k == given case None => k == if timeout == 0 then 1 else 2)
  }

  /** That is what the loop goes by: where it takes one sample to be enough, the caller has not asked for more. */
  lemma AskedExact(input: Input, timeout: nat, k: nat)
    requires Acceptable(input)
    ensures Asked(input, timeout, k) <==> timeout == Timeout(input) && k == Required(input)
  {
  }

  /** Sample `i` ends neither a run long enough nor the time allowed. */
  ghost predicate GoesOn(observe: nat -> Sample, checked: nat -> nat, timeout: nat, k: nat, i: nat) {
    !Run(observe, i, k) && timeout > 0 && checked(i) < timeout
  }

  /** Why the loop stopped where it did. */
  ghost predicate Stopped(observe: nat -> Sample, checked: nat -> nat, timeout: nat, k: nat, samples: nat, stable: bool) {
    && samples >= 1
    && (stable <==> Run(observe, samples - 1, k))
    && (forall i: nat | i < samples - 1 :: GoesOn(observe, checked, timeout, k, i))
    && (!stable ==> timeout == 0 || checked(samples - 1) >= timeout)
  }

  /** What the caller is told when the loop stops after `samples` samples: the last sample, whose outcomes are all reported as
      unproven if they are all satisfied but not for long enough. */
  ghost predicate Reported(timeout: nat, k: nat, observe: nat -> Sample, checked: nat -> nat, output: Output) {
    && Stopped(observe, checked, timeout, k, output.samples, output.stable)
    && var last := observe(output.samples - 1);
    && (output.status == Satisfied <==> output.stable)
    && if !output.stable && (forall outcome <- last :: outcome.status == Satisfied) then
         && output.status == Unknown && |output.predicates| == |last|
         && forall i | 0 <= i < |last| :: output.predicates[i] == Outcome(last[i].index, Unknown, Some(StabilityUnproven))
       else output.predicates == last && output.status == Aggregate(last)
  }

  function SampleLimit(timeout: nat): nat {
    (timeout + POLL_INTERVAL_MS - 1) / POLL_INTERVAL_MS + 1
  }

  /** After `samples` samples, none of which ended the loop, the last `consecutive` were satisfied and no more. */
  ghost predicate Polling(observe: nat -> Sample, checked: nat -> nat, timeout: nat, k: nat, samples: nat, consecutive: nat) {
    && consecutive <= samples && consecutive < k
    && (forall i: nat | samples - consecutive <= i < samples :: Aggregate(observe(i)) == Satisfied)
    && (consecutive < samples ==> Aggregate(observe(samples - consecutive - 1)) != Satisfied)
    && (forall i: nat | i < samples :: GoesOn(observe, checked, timeout, k, i))
  }

  /** How far the clock has come before sample number `samples` at the earliest. */
  ghost predicate Paced(checked: nat -> nat, timeout: nat, samples: nat) {
    samples > 0 ==> POLL_INTERVAL_MS * (samples - 1) < timeout && Min(timeout, POLL_INTERVAL_MS * samples) <= checked(samples)
  }

  method Invoke(input: Input, observe: nat -> Sample, checked: nat -> nat, resumed: nat -> nat) returns (r: Option<Output>)
    requires Timed(checked, resumed, Timeout(input))
    requires forall i: nat :: |observe(i)| == input.predicates
    ensures r.None? <==>
      (input.malformed || input.pid <= 0 || input.predicates == 0 || input.predicates > 8
       || (input.timeout.Some? && input.timeout.value > 10_000)
       || (input.stableSamples.Some? && (input.stableSamples.value == 0 || input.stableSamples.value > 5))
       || (input.timeout == Some(0) && input.stableSamples.Some? && input.stableSamples.value > 1))
    ensures r.Some? ==> forall timeout: nat, k: nat | Asked(input, timeout, k) ::
      Reported(timeout, k, observe, checked, r.value) && r.value.samples <= (timeout + 99) / 100 + 1
  {
    hide Aggregate, Run, Unproven, Timed, SampleLimit, Polling, Paced, Stopped;
    if !Acceptable(input) {
      return None;
    }
    var timeout, k := Timeout(input), Required(input);
    OnlyAsked(input);
    var samples, consecutive, stable := 0, 0, false;
    var outcomes: Sample := [];
    PollingStart(observe, checked, timeout, k);
    while true
      invariant !stable && consecutive < k
      invariant Polling(observe, checked, timeout, k, samples, consecutive) && Paced(checked, timeout, samples)
      decreases SampleLimit(timeout) - samples
    {
      WithinLimit(checked, timeout, samples);
      outcomes := observe(samples);
      PollingStep(observe, checked, timeout, k, samples, consecutive);
      samples := samples + 1;
      if Aggregate(outcomes) == Satisfied {
        consecutive := consecutive + 1;
        if consecutive >= k {
          stable := true;
          break;
        }
      } else {
        consecutive := 0;
      }
      if timeout == 0 || checked(samples - 1) >= timeout {
        break;
      }
      PacedStep(checked, resumed, timeout, samples - 1);
    }
    AggregateMeaning(outcomes);
    LimitExact(timeout);
    var reported := outcomes;
    if Aggregate(outcomes) == Satisfied && !stable {
      reported := Unproven(outcomes);
      UnprovenIsUnknown(outcomes);
      UnprovenOutcomes(outcomes);
    }
    return Some(Output(Aggregate(reported), stable, samples, reported));
  }

  lemma OnlyAsked(input: Input)
    requires Acceptable(input)
    ensures forall timeout: nat, k: nat | Asked(input, timeout, k) :: timeout == Timeout(input) && k == Required(input)
    ensures Required(input) >= 1
  {
  }

  lemma LimitExact(timeout: nat)
    ensures SampleLimit(timeout) == (timeout + 99) / 100 + 1
  {
  }

  lemma UnprovenOutcomes(outcomes: Sample)
    requires forall outcome <- outcomes :: outcome.status == Satisfied
    ensures |Unproven(outcomes)| == |outcomes|
    ensures forall i | 0 <= i < |outcomes| :: Unproven(outcomes)[i] == Outcome(outcomes[i].index, Unknown, Some(StabilityUnproven))
  {
  }

  lemma PollingStart(observe: nat -> Sample, checked: nat -> nat, timeout: nat, k: nat)
    requires k >= 1
    ensures Polling(observe, checked, timeout, k, 0, 0) && Paced(checked, timeout, 0)
  {
  }

  lemma PollingStep(observe: nat -> Sample, checked: nat -> nat, timeout: nat, k: nat, samples: nat, consecutive: nat)
    requires Polling(observe, checked, timeout, k, samples, consecutive)
    ensures
      var next := if Aggregate(observe(samples)) == Satisfied then consecutive + 1 else 0;
      if next >= k then Stopped(observe, checked, timeout, k, samples + 1, true) && Aggregate(observe(samples)) == Satisfied
      else if timeout == 0 || checked(samples) >= timeout then Stopped(observe, checked, timeout, k, samples + 1, false)
      else Polling(observe, checked, timeout, k, samples + 1, next)
  {
    hide Aggregate;
    var next := if Aggregate(observe(samples)) == Satisfied then consecutive + 1 else 0;
    if next < k {
      NoRun(observe, samples, next, k);
    }
  }

  lemma PacedStep(checked: nat -> nat, resumed: nat -> nat, timeout: nat, last: nat)
    requires Timed(checked, resumed, timeout) && Paced(checked, timeout, last) && checked(last) < timeout
    ensures Paced(checked, timeout, last + 1)
  {
    assert checked(last) <= resumed(last) && Asleep(resumed(last), timeout) <= checked(last + 1);
  }

  lemma WithinLimit(checked: nat -> nat, timeout: nat, samples: nat)
    requires Paced(checked, timeout, samples)
    ensures samples + 1 <= SampleLimit(timeout)
  {
  }

  /** A shorter row of satisfied samples, broken before it, is no run. */
  lemma NoRun(observe: nat -> Sample, last: nat, consecutive: nat, k: nat)
    requires consecutive < k && consecutive <= last + 1
    requires consecutive < last + 1 ==> Aggregate(observe(last - consecutive)) != Satisfied
    ensures !Run(observe, last, k)
  {
  }

  lemma UnprovenIsUnknown(outcomes: Sample)
    requires outcomes != [] && Aggregate(outcomes) == Satisfied
    ensures Aggregate(Unproven(outcomes)) == Unknown
  {
    AggregateMeaning(outcomes);
    var reported := Unproven(outcomes);
    assert reported[0] in reported && outcomes[0] in outcomes;
    forall outcome | outcome in reported ensures outcome.status == Unknown {
      var i :| 0 <= i < |reported| && reported[i] == outcome;
      assert outcomes[i] in outcomes;
    }
  }

  /** The number of samples and the verdict are determined by what was observed and when. */
  lemma StoppedUnique(observe: nat -> Sample, checked: nat -> nat, timeout: nat, k: nat,
                      a: nat, stableA: bool, b: nat, stableB: bool)
    requires Stopped(observe, checked, timeout, k, a, stableA) && Stopped(observe, checked, timeout, k, b, stableB)
    ensures a == b && stableA == stableB
  {
    assert a < b ==> GoesOn(observe, checked, timeout, k, a - 1);
    assert b < a ==> GoesOn(observe, checked, timeout, k, b - 1);
  }
}
