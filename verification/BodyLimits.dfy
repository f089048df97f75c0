// The arithmetic that judges the wait for a request body and announces when its verdict can next
// change.

module BodyLimits {
  const U64_MAX: nat := 0xFFFF_FFFF_FFFF_FFFF
  const NANOS: nat := 1_000_000_000

  datatype Breach = Idle | TooSlow | Total

  datatype Verdict = Within(recheckAt: nat) | Breached(breach: Breach)

  function Min(a: nat, b: nat): nat { if a <= b then a else b }

  function Max(a: nat, b: nat): nat { if a >= b then a else b }

  /** Durations in nanoseconds. */
  datatype Limits = Limits(idle: nat, minBytesPerSec: nat, grace: nat, total: nat) {
    function Rate(): nat {
      Max(minBytesPerSec, 1)
    }

    /** The nanoseconds `received` bytes cover at the rate, rounded down. */
    function Covered(received: nat): nat {
      received * NANOS / Rate()
    }

    /** The first nanosecond past what the bytes cover, saturated to 64 bits, never before
        grace ends. */
    function RateDeadline(received: nat): nat {
      Max(Min(Covered(received) + 1, U64_MAX), grace)
    }

    function IdleDeadline(elapsed: nat, idleFor: nat): nat {
      elapsed - Min(idleFor, elapsed) + idle
    }

    function Judge(elapsed: nat, idleFor: nat, received: nat): Verdict {
      if elapsed >= total then Breached(Total)
      else if idleFor >= idle then Breached(Idle)
      else if elapsed >= grace && elapsed > Covered(received) then Breached(TooSlow)
      else Within(Min(Min(total, IdleDeadline(elapsed, idleFor)), RateDeadline(received)))
    }
  }

  const PRODUCTION: Limits := Limits(30 * NANOS, 1_000, 10 * NANOS, 900 * NANOS)

  lemma FloorDecides(x: nat, a: nat, b: nat)
    requires b > 0
    ensures x > a / b <==> x * b > a
  {
    var q := a / b;
    assert q * b <= a < q * b + b;
    if x > q {
      MulMonotone(q + 1, x, b);
    } else {
      MulMonotone(x, q, b);
    }
  }

  lemma MulMonotone(x: nat, y: nat, m: nat)
    requires x <= y
    ensures x * m <= y * m
  {
  }

  /** On average, fewer bytes a second than configured; a rate of zero asks for one. */
  predicate BelowRate(limits: Limits, elapsed: nat, received: nat) {
    elapsed * (if limits.minBytesPerSec == 0 then 1 else limits.minBytesPerSec) > received * 1_000_000_000
  }

  /** The floor division decides the average exactly: the body is past what its bytes cover
      when it is below the configured rate, with no rounding. */
  lemma AverageIsExact(limits: Limits, elapsed: nat, received: nat)
    ensures elapsed > limits.Covered(received) <==> BelowRate(limits, elapsed, received)
  {
    FloorDecides(elapsed, received * NANOS, limits.Rate());
  }

  /** Which bound is broken, if one is: the total first, then silence, then the rate past grace. */
  lemma VerdictExactly(limits: Limits, elapsed: nat, idleFor: nat, received: nat)
    ensures var verdict := limits.Judge(elapsed, idleFor, received);
            && (verdict == Breached(Total) <==> elapsed >= limits.total)
            && (verdict == Breached(Idle) <==> elapsed < limits.total && idleFor >= limits.idle)
            && (verdict == Breached(TooSlow) <==>
                 && elapsed < limits.total && idleFor < limits.idle
                 && elapsed >= limits.grace && BelowRate(limits, elapsed, received))
  {
    AverageIsExact(limits, elapsed, received);
  }

  lemma CoveredMonotone(limits: Limits, received: nat, more: nat)
    requires received <= more
    ensures limits.Covered(received) <= limits.Covered(more)
  {
    FloorDecides(limits.Covered(received), more * NANOS, limits.Rate());
    FloorDecides(limits.Covered(received), received * NANOS, limits.Rate());
  }

  /** The verdict as time passes with no byte coming. */
  function Later(limits: Limits, elapsed: nat, idleFor: nat, received: nat, at: nat): Verdict
    requires at >= elapsed
  {
    limits.Judge(at, idleFor + (at - elapsed), received)
  }

  /** `deadline` is the first instant from `elapsed` on at which a bound breaks if no byte
      comes, and every verdict before announces it. */
  ghost predicate FirstBreach(limits: Limits, elapsed: nat, idleFor: nat, received: nat, deadline: nat) {
    && deadline > elapsed
    && Later(limits, elapsed, idleFor, received, deadline).Breached?
    && (forall at :: elapsed <= at < deadline ==>
         Later(limits, elapsed, idleFor, received, at) == Within(deadline))
  }

  /** The announcement is cut short by the 64 bits of its nanoseconds. */
  predicate Saturates(limits: Limits, elapsed: nat, idleFor: nat, received: nat) {
    && U64_MAX < Min(limits.total, limits.IdleDeadline(elapsed, idleFor))
    && limits.grace < Min(limits.total, limits.IdleDeadline(elapsed, idleFor))
    && limits.Covered(received) + 1 > Max(U64_MAX, limits.grace)
  }

  /** What `judge` announces is sound, tight and in the future exactly when 64-bit nanoseconds
      do not cut it short, which takes a total of more than five centuries. */
  lemma RecheckIsFirstBreach(limits: Limits, elapsed: nat, idleFor: nat, received: nat)
    requires idleFor <= elapsed
    requires limits.Judge(elapsed, idleFor, received).Within?
    ensures FirstBreach(limits, elapsed, idleFor, received,
                        limits.Judge(elapsed, idleFor, received).recheckAt)
            <==> !Saturates(limits, elapsed, idleFor, received)
    ensures limits.total <= U64_MAX ==> !Saturates(limits, elapsed, idleFor, received)
  {
    var recheck := limits.Judge(elapsed, idleFor, received).recheckAt;
    if !Saturates(limits, elapsed, idleFor, received) {
      forall at | elapsed <= at < recheck
        ensures Later(limits, elapsed, idleFor, received, at) == Within(recheck)
      {
        assert limits.IdleDeadline(at, idleFor + (at - elapsed)) == limits.IdleDeadline(elapsed, idleFor);
      }
    } else if recheck > elapsed {
      assert !Later(limits, elapsed, idleFor, received, recheck).Breached?;
    }
  }

  /** The limits shipped are never cut short. */
  lemma ProductionIsExact(elapsed: nat, idleFor: nat, received: nat)
    requires idleFor <= elapsed
    requires PRODUCTION.Judge(elapsed, idleFor, received).Within?
    ensures FirstBreach(PRODUCTION, elapsed, idleFor, received,
                        PRODUCTION.Judge(elapsed, idleFor, received).recheckAt)
  {
    RecheckIsFirstBreach(PRODUCTION, elapsed, idleFor, received);
  }

  /** A body held to the limits shipped is cut after fifteen minutes, thirty seconds of silence,
      or, from ten seconds on, below a thousand bytes a second on average. */
  lemma ProductionVerdicts(elapsed: nat, idleFor: nat, received: nat)
    ensures PRODUCTION.Judge(elapsed, idleFor, received).Within? <==>
            && elapsed < 900_000_000_000
            && idleFor < 30_000_000_000
            && (elapsed < 10_000_000_000 || elapsed * 1_000 <= received * 1_000_000_000)
  {
    VerdictExactly(PRODUCTION, elapsed, idleFor, received);
  }

  const CENTURIES: Limits := Limits(0x2_0000_0000_0000_0000, 1, 0, 0x2_0000_0000_0000_0000)

  /** Limits of eleven centuries at a byte a second, and a body that sent 18.4 GB at once: the
      instant announced is the last of 64 bits, at which nothing breaks. */
  lemma AnnouncementCutShort()
    ensures CENTURIES.Judge(0, 0, 18_446_744_074) == Within(U64_MAX)
    ensures Saturates(CENTURIES, 0, 0, 18_446_744_074)
    ensures Later(CENTURIES, 0, 0, 18_446_744_074, U64_MAX).Within?
  {
    assert CENTURIES.Covered(18_446_744_074) == 18_446_744_074 * NANOS;
  }

  /** More bytes, or a chunk more recent, never turn a wait within bounds into a breach. */
  lemma MoreBytesNeverBreach(limits: Limits, elapsed: nat, idleFor: nat, received: nat,
                             shorter: nat, more: nat)
    requires limits.Judge(elapsed, idleFor, received).Within?
    requires shorter <= idleFor && received <= more
    ensures limits.Judge(elapsed, shorter, more).Within?
  {
    CoveredMonotone(limits, received, more);
  }

  /** A wait is never announced past the total nor past the silence allowed. */
  lemma RecheckWithinBounds(limits: Limits, elapsed: nat, idleFor: nat, received: nat)
    requires idleFor <= elapsed
    requires limits.Judge(elapsed, idleFor, received).Within?
    ensures limits.Judge(elapsed, idleFor, received).recheckAt <= limits.total
    ensures limits.Judge(elapsed, idleFor, received).recheckAt <= elapsed - idleFor + limits.idle
  {
  }
}
