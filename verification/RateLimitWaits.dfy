// The limiter's locks cannot deadlock, its purge included: since an admission skips the locked
// rows of others instead of waiting for them, one that has stored its row never waits again.

module LimiterWaits {
  import opened LimiterProtocol

  /** `a` waits for something `b` holds: its subject's lock, its own row's, or, for the purge, that
      of a row to delete. */
  ghost predicate WaitsOn(st: State, a: Actor, b: Actor) {
    a != b &&
    match st.Of(a)
    case Await(s) => st.Of(b).HoldsSubject() && st.Of(b).subject.lockKey == s.lockKey
    case Loaded(s, _, _, _) => st.Of(a).Changes() && st.Of(b).LocksRow(s)
    case Sweeping(_, _) => exists s :: Forgettable(st.db, st.Of(a), s) && st.Of(b).LocksRow(s)
    case _ => false
  }

  ghost predicate Waits(st: State, a: Actor) {
    exists b :: WaitsOn(st, a, b)
  }

  /** Subject lock before row locks; the purge takes row locks only. */
  function Phase(t: Txn): nat {
    if t.Idle? || t.Await? then 0
    else if t.Sweeping? then 2
    else if t.Stored? then 3
    else 1
  }

  /** One process purges at a time. */
  ghost predicate OnePurge(st: State) {
    forall a, b :: st.Of(a).Sweeping? && st.Of(b).Sweeping? ==> a == b
  }

  lemma WaitsOnLaterPhase(st: State, a: Actor, b: Actor)
    requires OnePurge(st) && WaitsOn(st, a, b)
    ensures Phase(st.Of(a)) < Phase(st.Of(b))
    ensures !st.Of(a).Stored?
  {
    assert !(st.Of(a).Sweeping? && st.Of(b).Sweeping?);
  }

  ghost predicate WaitCycle(st: State, cycle: seq<Actor>) {
    && cycle != []
    && (forall i :: 0 <= i < |cycle| - 1 ==> WaitsOn(st, cycle[i], cycle[i + 1]))
    && WaitsOn(st, cycle[|cycle| - 1], cycle[0])
  }

  lemma {:induction false} PhasesGrow(st: State, cycle: seq<Actor>, i: nat)
    requires OnePurge(st) && WaitCycle(st, cycle) && i < |cycle|
    ensures Phase(st.Of(cycle[0])) + i <= Phase(st.Of(cycle[i]))
  {
    if i > 0 {
      PhasesGrow(st, cycle, i - 1);
      assert WaitsOn(st, cycle[i - 1], cycle[i - 1 + 1]);
      WaitsOnLaterPhase(st, cycle[i - 1], cycle[i]);
    }
  }

  /** No state has a cycle of transactions each waiting on the next, a purge among them or not. */
  lemma NoWaitCycle(st: State, cycle: seq<Actor>)
    requires OnePurge(st)
    ensures !WaitCycle(st, cycle)
  {
    if WaitCycle(st, cycle) {
      var last := |cycle| - 1;
      PhasesGrow(st, cycle, last);
      WaitsOnLaterPhase(st, cycle[last], cycle[0]);
    }
  }

  /** A step by which a transaction under way goes on. */
  predicate GoesOn(step: Step) {
    !step.Tick? && !step.Begin? && !step.Abort? && !step.BeginSweep?
  }

  ghost predicate CanGoOn(st: State, b: Actor) {
    exists step :: GoesOn(step) && step.a == b && Enabled(st, step)
  }

  /** The next statement of a transaction that waits for nobody. */
  lemma UnblockedGoesOn(st: State, a: Actor)
    requires !st.Of(a).Idle? && !Waits(st, a)
    ensures CanGoOn(st, a)
  {
    var t := st.Of(a);
    var step := match t
      case Await(_) => LockSubject(a)
      case Held(_) => ReadClock(a)
      case Clocked(_, _) => ReadRow(a)
      case Loaded(_, _, _, _) => Store(a)
      case _ => Commit(a);
    forall b | b != a
      ensures t.Await? ==> !(st.Of(b).HoldsSubject() && st.Of(b).subject.lockKey == t.subject.lockKey)
      ensures t.Loaded? && t.Changes() ==> !st.Of(b).LocksRow(t.subject)
    {
      assert !WaitsOn(st, a, b);
    }
    assert Enabled(st, step) && step.a == a && GoesOn(step);
  }

  /** As long as a transaction is under way, one of them can take its next statement: waiting
      always ends. */
  lemma {:induction false} SomeoneGoesOn(st: State, a: Actor)
    requires OnePurge(st) && !st.Of(a).Idle?
    ensures exists b :: CanGoOn(st, b)
    decreases 3 - Phase(st.Of(a))
  {
    if b :| WaitsOn(st, a, b) {
      WaitsOnLaterPhase(st, a, b);
      SomeoneGoesOn(st, b);
    } else {
      UnblockedGoesOn(st, a);
    }
  }
}
