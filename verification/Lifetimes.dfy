/** Countdown of address lifetimes between two observations (executor.rs). */
module Lifetimes {
  import opened Wrappers
  import opened Plan

  const NANOS: nat := 1_000_000_000

  function Since(now: Instant, earlier: Instant): Duration {
    if now >= earlier then now - earlier else 0
  }

  /** Whole seconds of a duration, saturating at the width of a lifetime. */
  function WholeSeconds(duration: Duration): u32 {
    var seconds := duration / NANOS;
    if seconds <= FOREVER then seconds else FOREVER
  }

  function Decay(seconds: u32, elapsed: u32): u32 {
    if seconds == FOREVER then seconds
    else if seconds >= elapsed then seconds - elapsed
    else 0
  }

  function Ceiling(elapsed: Duration): nat {
    WholeSeconds(elapsed) + (if elapsed % NANOS > 0 then 1 else 0)
  }

  predicate LifetimeMatches(expected: u32, actual: u32, elapsed: Duration) {
    if expected == FOREVER || actual == FOREVER then expected == actual
    else
      || WholeSeconds(elapsed) - 1 <= expected - actual <= Ceiling(elapsed) + 1
      || (actual == 0 && expected <= Ceiling(elapsed) + 1)
  }

  /** What a kernel that counts whole seconds reports at an instant. */
  function Remaining(expiry: Instant, at: Instant): nat {
    if at >= expiry then 0 else (expiry - at + NANOS - 1) / NANOS
  }

  /** A dump observed at an instant was sampled at most one second earlier. */
  predicate SampledFor(sampled: Instant, observedAt: Instant) {
    sampled <= observedAt <= sampled + NANOS
  }

  /** Two dumps that saw the same countdown. */
  predicate Countdown(expected: u32, actual: u32, expiry: Instant,
                      first: Instant, firstObserved: Instant,
                      second: Instant, secondObserved: Instant)
  {
    && first <= second
    && firstObserved <= secondObserved
    && SampledFor(first, firstObserved)
    && SampledFor(second, secondObserved)
    && expected == Remaining(expiry, first)
    && actual == Remaining(expiry, second)
  }

  /** Natural decay, including saturation at zero, always matches. */
  lemma CountdownMatches(expected: u32, actual: u32, expiry: Instant,
                         first: Instant, firstObserved: Instant,
                         second: Instant, secondObserved: Instant)
    requires Countdown(expected, actual, expiry, first, firstObserved, second, secondObserved)
    requires expected != FOREVER && actual != FOREVER
    ensures LifetimeMatches(expected, actual, Since(secondObserved, firstObserved))
  {
  }

  ghost predicate Explained(expected: u32, actual: u32, elapsed: Duration) {
    exists expiry: Instant, first: Instant, firstObserved: Instant, second: Instant, secondObserved: Instant ::
      && secondObserved == firstObserved + elapsed
      && Countdown(expected, actual, expiry, first, firstObserved, second, secondObserved)
  }

  /**
   The tolerance is exact: a finite match is either explained by one countdown
   or is the one-second increase accepted within the first second.
   */
  lemma MatchIffExplained(expected: u32, actual: u32, elapsed: Duration)
    requires expected != FOREVER && actual != FOREVER
    ensures LifetimeMatches(expected, actual, elapsed)
       <==> Explained(expected, actual, elapsed) || (actual == expected + 1 && elapsed < NANOS)
  {
    if Explained(expected, actual, elapsed) {
      var expiry: Instant, first: Instant, firstObserved: Instant, second: Instant, secondObserved: Instant :|
        && secondObserved == firstObserved + elapsed
        && Countdown(expected, actual, expiry, first, firstObserved, second, secondObserved);
      CountdownMatches(expected, actual, expiry, first, firstObserved, second, secondObserved);
    }
    if LifetimeMatches(expected, actual, elapsed) && actual <= expected {
      ExplainMatch(expected, actual, elapsed);
    }
  }

  lemma ExplainMatch(expected: u32, actual: u32, elapsed: Duration)
    requires expected != FOREVER && actual != FOREVER && actual <= expected
    requires LifetimeMatches(expected, actual, elapsed)
    ensures Explained(expected, actual, elapsed)
  {
    var consumed, whole := expected - actual, elapsed / NANOS;
    var late := actual == 0 || consumed == whole + 2;
    // The time between the two samples, and how it splits around the observations.
    var span :=
      if late then elapsed + NANOS
      else if consumed <= whole then
        if elapsed >= NANOS && elapsed - NANOS > consumed * NANOS then elapsed - NANOS else consumed * NANOS
      else consumed * NANOS;
    var first := if span <= elapsed then NANOS else NANOS - (span - elapsed);
    var expiry :=
      if expected == 0 then first
      else if late then first + (expected - 1) * NANOS + 1
      else first + expected * NANOS;
    assert Countdown(expected, actual, expiry, first, NANOS, first + span, NANOS + elapsed);
  }

  /** Apart from saturation, matching values expire less than two seconds apart. */
  lemma MatchedExpiriesAreClose(expected: u32, actual: u32, earlier: Instant, now: Instant)
    requires earlier <= now
    requires LifetimeMatches(expected, actual, Since(now, earlier))
    requires actual != FOREVER && actual > 0
    ensures expected != FOREVER
    ensures -2 * NANOS < (earlier + expected * NANOS) - (now + actual * NANOS) < 2 * NANOS
  {
  }

  lemma ForeverMatchesOnlyForever(expected: u32, actual: u32, elapsed: Duration)
    requires expected == FOREVER || actual == FOREVER
    ensures LifetimeMatches(expected, actual, elapsed) <==> expected == actual
  {
  }
}
