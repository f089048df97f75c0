// The report limit's locks cannot deadlock: a waiting admission always waits on one in a
// strictly later phase, so waits never form a cycle and some admission can always go on.

module CspWaits {
  import opened CspProtocol
  import opened CspSafety

  /** Address lock before table lock, table lock before rows, an updated row straight to
      commit. */
  function Phase(t: Txn): nat {
    if t.AwaitAddress? then 0
    else if t.Wrote? then 3
    else if t.HoldsTable() then 2
    else 1
  }

  lemma WaitsOnLaterPhase(st: State, a: Actor, b: Actor)
    requires Reachable(st)
    requires st.WaitsOn(a, b) && !st.Of(b).Sweeping?
    ensures st.Of(b).IsAdmission() && Phase(st.Of(a)) < Phase(st.Of(b))
  {
    ReachableInv(st);
    assert Compatible(st.Of(a), st.Of(b));
  }

  ghost predicate WaitCycle(st: State, cycle: seq<Actor>) {
    && cycle != []
    && (forall i :: 0 <= i < |cycle| ==> st.Of(cycle[i]).IsAdmission())
    && (forall i :: 0 <= i < |cycle| - 1 ==> st.WaitsOn(cycle[i], cycle[i + 1]))
    && st.WaitsOn(cycle[|cycle| - 1], cycle[0])
  }

  lemma {:induction false} PhasesGrow(st: State, cycle: seq<Actor>, i: nat)
    requires Reachable(st) && WaitCycle(st, cycle) && i < |cycle|
    ensures Phase(st.Of(cycle[0])) + i <= Phase(st.Of(cycle[i]))
  {
    if i > 0 {
      PhasesGrow(st, cycle, i - 1);
      assert st.WaitsOn(cycle[i - 1], cycle[i - 1 + 1]);
      WaitsOnLaterPhase(st, cycle[i - 1], cycle[i]);
    }
  }

  /** No reachable state has a cycle of admissions each waiting on the next. */
  lemma NoWaitCycle(st: State, cycle: seq<Actor>)
    requires Reachable(st)
    ensures !WaitCycle(st, cycle)
  {
    if WaitCycle(st, cycle) {
      var last := |cycle| - 1;
      PhasesGrow(st, cycle, last);
      WaitsOnLaterPhase(st, cycle[last], cycle[0]);
    }
  }

  /** A step by which an admission under way goes on. */
  predicate GoesOn(step: Step) {
    !step.Tick? && !step.Begin? && !step.Abort? && !step.BeginSweep?
  }

  ghost predicate CanGoOn(st: State, b: Actor) {
    exists step :: GoesOn(step) && step.a == b && Enabled(st, step)
  }

  /** The next statement of an admission that waits for nobody. */
  lemma UnblockedGoesOn(st: State, a: Actor)
    requires Reachable(st)
    requires st.Of(a).IsAdmission() && !st.Waits(a)
    ensures CanGoOn(st, a)
  {
    ReachableInv(st);
    var t := st.Of(a);
    assert LocalOk(st.db, t);
    if t.Purging? {
      if s :| st.db.StaleRow(s, t.now) && s !in t.dels {
        forall b | b != a ensures !st.Of(b).LocksRow(s) {
          assert !st.WaitsOn(a, b);
        }
        assert Enabled(st, PurgeRow(a, s));
      } else {
        assert Enabled(st, EndPurge(a));
      }
    } else {
      var step := match t
        case AwaitAddress(_) => LockAddress(a)
        case HoldAddress(_) => ReadClock(a)
        case Clocked(_, _) => ReadRow(a)
        case Decided(_, _, _) => Update(a)
        case AwaitTable(_) => LockTable(a)
        case HoldTable(_) => ReadTableClock(a)
        case Counting(_, _) => CountRows(a)
        case Purged(_, _, _) => CountLive(a)
        case Ready(_, _, _) => Insert(a)
        case _ => Commit(a);
      assert Enabled(st, step) && step.a == a && GoesOn(step);
    }
  }

  /** As long as an admission is under way and no retention purge is, an admission can take
      its next statement: waiting always ends. */
  lemma {:induction false} SomeAdmissionGoesOn(st: State, a: Actor)
    requires Reachable(st)
    requires forall b :: !st.Of(b).Sweeping?
    requires st.Of(a).IsAdmission()
    ensures exists b :: CanGoOn(st, b)
    decreases 3 - Phase(st.Of(a))
  {
    if b :| st.WaitsOn(a, b) {
      WaitsOnLaterPhase(st, a, b);
      SomeAdmissionGoesOn(st, b);
    } else {
      UnblockedGoesOn(st, a);
    }
  }
}
