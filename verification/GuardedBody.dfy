// The poll loop that holds a request body to its limits, and relies on the instant announced.

module GuardedBody {
  import opened Prelude
  import opened BodyLimits

  /** What polling the inner body gives. */
  datatype Inner = Data(length: nat) | Trailers | Failed | End | NotReady

  /** What the guarded body answers. */
  datatype Answer = Frame(inner: Inner) | TimedOut(breach: Breach) | Pending

  datatype Clock = Clock(firstRead: nat, lastChunk: nat, received: nat) {
    function Verdict(limits: Limits, now: nat): Verdict
      requires firstRead <= lastChunk <= now
    {
      limits.Judge(now - firstRead, now - lastChunk, received)
    }
  }

  /** Judged on `clock` from `now` on, with no byte coming, the body is within its bounds until
      `deadline` and breaches one there. */
  ghost predicate FirstBreachAt(limits: Limits, clock: Clock, now: nat, deadline: nat)
    requires clock.firstRead <= clock.lastChunk <= now
  {
    && deadline > now
    && clock.Verdict(limits, deadline).Breached?
    && (forall at :: now <= at < deadline ==> clock.Verdict(limits, at).Within?)
  }

  lemma VerdictLater(limits: Limits, clock: Clock, now: nat, at: nat)
    requires clock.firstRead <= clock.lastChunk <= now <= at
    ensures clock.Verdict(limits, at)
         == Later(limits, now - clock.firstRead, now - clock.lastChunk, clock.received, at - clock.firstRead)
  {
  }

  lemma AnnouncedIsFirstBreach(limits: Limits, clock: Clock, now: nat)
    requires limits.total <= U64_MAX
    requires clock.firstRead <= clock.lastChunk <= now
    requires clock.Verdict(limits, now).Within?
    ensures var deadline := clock.firstRead + clock.Verdict(limits, now).recheckAt;
            && FirstBreachAt(limits, clock, now, deadline)
            && deadline <= clock.firstRead + limits.total
            && deadline <= clock.lastChunk + limits.idle
  {
    var elapsed, idleFor := now - clock.firstRead, now - clock.lastChunk;
    var deadline := clock.firstRead + clock.Verdict(limits, now).recheckAt;
    RecheckIsFirstBreach(limits, elapsed, idleFor, clock.received);
    RecheckWithinBounds(limits, elapsed, idleFor, clock.received);
    VerdictLater(limits, clock, now, deadline);
    forall at | now <= at < deadline ensures clock.Verdict(limits, at).Within? {
      VerdictLater(limits, clock, now, at);
    }
  }

  lemma BreachedStays(limits: Limits, clock: Clock, at: nat, later: nat)
    requires clock.firstRead <= clock.lastChunk <= at <= later
    requires clock.Verdict(limits, at).Breached?
    ensures clock.Verdict(limits, later).Breached?
  {
  }

  /** A request body held to its limits. */
  class Body {
    const limits: Limits
    var clock: Option<Clock>
    var timer: Option<nat>
    var tripped: Option<Breach>

    constructor (limits: Limits)
      ensures this.limits == limits
      ensures clock == None && timer == None && tripped == None
    {
      this.limits := limits;
      clock, timer, tripped := None, None, None;
    }

    /** `now` is not before anything the body recorded. */
    ghost predicate Valid(now: nat)
      reads this
    {
      && limits.total <= U64_MAX
      && (clock.Some? ==> clock.value.firstRead <= clock.value.lastChunk <= now)
    }

    /** The clock as the poll starts: set by the first one. */
    function Started(now: nat): Clock
      reads this
    {
      if clock.Some? then clock.value else Clock(now, now, 0)
    }

    /** One poll. `instants` are the clock's successive readings: one as the poll starts, then in
        each round of the loop one to judge by and one by which the timer is polled. A timer
        found due is due; one found pending may be late. */
    method Poll(inner: Inner, instants: nat -> nat) returns (answer: Answer, ghost rounds: nat)
      requires Valid(instants(0))
      requires forall i, j :: i <= j ==> instants(i) <= instants(j)
      modifies this
      ensures rounds <= 2
      ensures Valid(instants(2 * rounds))
      // Once tripped, always the same breach, and nothing changes.
      ensures old(tripped).Some? ==>
                answer == TimedOut(old(tripped).value) && unchanged(this)
      // A frame of the inner body is handed over unjudged; data moves the clock.
      ensures old(tripped).None? && !inner.NotReady? ==>
                && answer == Frame(inner) && tripped == None && timer == old(timer)
                && var started := old(Started(instants(0)));
                   clock == Some(if inner.Data?
                                 then Clock(started.firstRead, instants(0), started.received + inner.length)
                                 else started)
      // A wait goes on only with a timer armed at the first instant a bound would break.
      ensures old(tripped).None? && inner.NotReady? ==> clock == Some(old(Started(instants(0))))
      ensures answer.Pending? ==>
                && old(tripped).None? && inner.NotReady? && tripped == None
                && clock.Some? && Valid(instants(1))
                && timer.Some? && rounds == 1
                && FirstBreachAt(limits, clock.value, instants(1), timer.value)
                && timer.value <= clock.value.firstRead + limits.total
                && timer.value <= clock.value.lastChunk + limits.idle
      // A breach is one that holds when it is judged, and is latched.
      ensures answer.TimedOut? && old(tripped).None? ==>
                && inner.NotReady? && tripped == Some(answer.breach) && timer == None
                && rounds >= 1
                && old(Started(instants(0))).lastChunk <= instants(2 * rounds - 1)
                && old(Started(instants(0))).Verdict(limits, instants(2 * rounds - 1)) == Breached(answer.breach)
      ensures old(tripped).None? && inner.NotReady? ==> !answer.Frame?
    {
      rounds := 0;
      if tripped.Some? {
        return TimedOut(tripped.value), 0;
      }
      var now := instants(0);
      if clock.None? {
        clock := Some(Clock(now, now, 0));
      }
      var started := clock.value;
      if !inner.NotReady? {
        if inner.Data? {
          clock := Some(Clock(started.firstRead, now, started.received + inner.length));
        }
        return Frame(inner), 0;
      }
      var read := 1;
      while true
        invariant rounds <= 1 && read == 2 * rounds + 1
        invariant clock == Some(started) && tripped == None
        invariant started.firstRead <= started.lastChunk <= instants(0) <= instants(read)
        invariant rounds == 1 ==> started.Verdict(limits, instants(read)).Breached?
        decreases 2 - rounds
      {
        now := instants(read);
        rounds := rounds + 1;
        match started.Verdict(limits, now) {
          case Breached(breach) =>
            tripped, timer := Some(breach), None;
            return TimedOut(breach), rounds;
          case Within(recheckAt) =>
            var deadline := started.firstRead + recheckAt;
            AnnouncedIsFirstBreach(limits, started, now);
            timer := Some(deadline);
            var due: bool :| due ==> deadline <= instants(read + 1);
            if !due {
              return Pending, rounds;
            }
            // Already due: judged again, which is a breach from its own deadline on.
            read := read + 2;
            BreachedStays(limits, started, deadline, instants(read));
        }
      }
    }
  }
}
