// The upload gate: one counter per account under a lock, then a permit from a process-wide
// pool, taken and given back in separate critical sections.

module UploadSlots {
  type Account = nat

  function HeldBy(counts: map<Account, nat>, key: Account): nat {
    if key in counts then counts[key] else 0
  }

  /** The counts once a slot is taken, if the account is under its limit. */
  function Taken(counts: map<Account, nat>, key: Account, limit: nat): (map<Account, nat>, bool) {
    if HeldBy(counts, key) >= limit then (counts, false)
    else (counts[key := HeldBy(counts, key) + 1], true)
  }

  /** The counts once a slot is given back; an account with none left has no entry. */
  function Released(counts: map<Account, nat>, key: Account): map<Account, nat> {
    if key !in counts then counts
    else if counts[key] > 1 then counts[key := counts[key] - 1]
    else counts - {key}
  }

  /** Giving back the slot just taken restores the counts. */
  lemma ReleaseUndoesTake(counts: map<Account, nat>, key: Account, limit: nat)
    requires key in counts ==> counts[key] > 0
    requires Taken(counts, key, limit).1
    ensures Released(Taken(counts, key, limit).0, key) == counts
  {
    if key !in counts {
      assert counts[key := 1] - {key} == counts;
    }
  }

  datatype Acquired = Permit(key: Account) | BusyAccount | BusyProcess

  /** Both limits, and what is left of them. */
  class Gate {
    const processLimit: nat
    const perKeyLimit: nat
    var counts: map<Account, nat>
    var free: nat

    constructor (processLimit: nat, perKeyLimit: nat)
      ensures this.processLimit == processLimit && this.perKeyLimit == perKeyLimit
      ensures counts == map[] && free == processLimit
    {
      this.processLimit, this.perKeyLimit := processLimit, perKeyLimit;
      counts, free := map[], processLimit;
    }

    method TakeSlot(key: Account) returns (taken: bool)
      modifies this`counts
      ensures (counts, taken) == Taken(old(counts), key, perKeyLimit)
    {
      var held := if key in counts then counts[key] else 0;
      if held >= perKeyLimit {
        return false;
      }
      counts := counts[key := held + 1];
      return true;
    }

    method ReleaseSlot(key: Account)
      modifies this`counts
      ensures counts == Released(old(counts), key)
    {
      if key in counts {
        if counts[key] > 1 {
          counts := counts[key := counts[key] - 1];
        } else {
          counts := counts - {key};
        }
      }
    }

    /** Run on its own: a permit takes one of each; a refusal leaves both as they were. */
    method TryAcquire(key: Account) returns (acquired: Acquired)
      requires key in counts ==> counts[key] > 0
      modifies this
      ensures acquired.BusyAccount? <==> HeldBy(old(counts), key) >= perKeyLimit
      ensures acquired.BusyProcess? ==> old(free) == 0
      ensures acquired.Permit? ==> acquired.key == key
      ensures acquired == Permit(key) ==>
                counts == old(counts)[key := HeldBy(old(counts), key) + 1] && free + 1 == old(free)
      ensures acquired != Permit(key) ==> counts == old(counts) && free == old(free)
    {
      var taken := TakeSlot(key);
      if !taken {
        return BusyAccount;
      }
      if free > 0 {
        free := free - 1;
        return Permit(key);
      }
      ReleaseUndoesTake(old(counts), key, perKeyLimit);
      ReleaseSlot(key);
      return BusyProcess;
    }

    /** The slot goes first, then the place in the pool. */
    method Drop(key: Account)
      modifies this
      ensures counts == Released(old(counts), key) && free == old(free) + 1
    {
      ReleaseSlot(key);
      free := free + 1;
    }
  }
}

// Every interleaving of acquisitions and drops.
module UploadGate {
  import opened UploadSlots

  type Actor = nat

  /** An upload's way through the gate. A dropped permit gives its slot back first, then its
      place in the pool. */
  datatype Upload =
    | Idle
    | Slotted(key: Account)
    | Refused(key: Account)
    | Holding(key: Account)
    | Returning(key: Account)
  {
    /** Counted in its account. */
    predicate Counted(k: Account) {
      (Slotted? || Refused? || Holding?) && key == k
    }

    /** Holds a permit of the pool. */
    predicate Pooled() {
      Holding? || Returning?
    }
  }

  datatype State = State(
    processLimit: nat,
    perKeyLimit: nat,
    counts: map<Account, nat>,
    free: nat,
    uploads: map<Actor, Upload>)
  {
    function Of(a: Actor): Upload {
      if a in uploads then uploads[a] else Idle
    }

    function Move(a: Actor, u: Upload): State {
      this.(uploads := uploads[a := u])
    }

    /** The undropped permits of the account, and its attempts between slot and pool. */
    function CountedIn(k: Account): set<Actor> {
      set a | a in uploads && uploads[a].Counted(k)
    }

    function InPool(): set<Actor> {
      set a | a in uploads && uploads[a].Pooled()
    }
  }

  function Init(processLimit: nat, perKeyLimit: nat): State {
    State(processLimit, perKeyLimit, map[], processLimit, map[])
  }

  datatype Step =
    | TakeSlot(a: Actor, key: Account)
    | TakePermit(a: Actor)
    | GiveUp(a: Actor)
    | DropSlot(a: Actor)
    | DropPermit(a: Actor)

  predicate Enabled(st: State, step: Step) {
    match step
    case TakeSlot(a, _) => st.Of(a).Idle?
    case TakePermit(a) => st.Of(a).Slotted?
    case GiveUp(a) => st.Of(a).Refused?
    case DropSlot(a) => st.Of(a).Holding?
    case DropPermit(a) => st.Of(a).Returning?
  }

  function Apply(st: State, step: Step): State
    requires Enabled(st, step)
  {
    match step
    case TakeSlot(a, k) =>
      var (counts, taken) := Taken(st.counts, k, st.perKeyLimit);
      if taken then st.Move(a, Slotted(k)).(counts := counts) else st
    case TakePermit(a) =>
      if st.free > 0 then st.Move(a, Holding(st.Of(a).key)).(free := st.free - 1)
      else st.Move(a, Refused(st.Of(a).key))
    case GiveUp(a) => st.Move(a, Idle).(counts := Released(st.counts, st.Of(a).key))
    case DropSlot(a) =>
      st.Move(a, Returning(st.Of(a).key)).(counts := Released(st.counts, st.Of(a).key))
    case DropPermit(a) => st.Move(a, Idle).(free := st.free + 1)
  }

  ghost predicate Runs(st: State, steps: seq<Step>, end: State)
    decreases |steps|
  {
    if steps == [] then st == end
    else Enabled(st, steps[0]) && Runs(Apply(st, steps[0]), steps[1..], end)
  }

  ghost predicate RunsFrom(processLimit: nat, perKeyLimit: nat, steps: seq<Step>, end: State) {
    Runs(Init(processLimit, perKeyLimit), steps, end)
  }

  ghost predicate Reachable(st: State) {
    exists processLimit, perKeyLimit, steps :: RunsFrom(processLimit, perKeyLimit, steps, st)
  }

  ghost predicate Inv(st: State) {
    && (forall k :: HeldBy(st.counts, k) == |st.CountedIn(k)|)
    && (forall k :: k in st.counts ==> 0 < st.counts[k] <= st.perKeyLimit)
    && st.free + |st.InPool()| == st.processLimit
  }

  /** Two sets that differ on one actor at most. */
  lemma OneMoved(before: set<Actor>, after: set<Actor>, a: Actor)
    requires forall b :: b != a ==> (b in before <==> b in after)
    ensures (a in before) == (a in after) ==> before == after
    ensures a in before && a !in after ==> |before| == |after| + 1
    ensures a !in before && a in after ==> |after| == |before| + 1
  {
    if a in before && a !in after {
      assert before == after + {a};
    } else if a !in before && a in after {
      assert after == before + {a};
    }
  }

  /** Where an upload's move leaves each account's uploads. */
  lemma CountedMoves(st: State, a: Actor, u: Upload, k: Account)
    ensures var before, after := st.CountedIn(k), st.Move(a, u).CountedIn(k);
            && (st.Of(a).Counted(k) == u.Counted(k) ==> after == before)
            && (st.Of(a).Counted(k) && !u.Counted(k) ==> |before| == |after| + 1)
            && (!st.Of(a).Counted(k) && u.Counted(k) ==> |after| == |before| + 1)
  {
    OneMoved(st.CountedIn(k), st.Move(a, u).CountedIn(k), a);
  }

  lemma PooledMoves(st: State, a: Actor, u: Upload)
    ensures var before, after := st.InPool(), st.Move(a, u).InPool();
            && (st.Of(a).Pooled() == u.Pooled() ==> after == before)
            && (st.Of(a).Pooled() && !u.Pooled() ==> |before| == |after| + 1)
            && (!st.Of(a).Pooled() && u.Pooled() ==> |after| == |before| + 1)
  {
    OneMoved(st.InPool(), st.Move(a, u).InPool(), a);
  }

  /** An actor counted in an account makes its count positive. */
  lemma CountedIsPositive(st: State, a: Actor, k: Account)
    requires Inv(st) && st.Of(a).Counted(k)
    ensures k in st.counts && st.counts[k] > 0
  {
    assert a in st.CountedIn(k);
    assert HeldBy(st.counts, k) == |st.CountedIn(k)|;
  }

  lemma StepPreserves(st: State, step: Step)
    requires Inv(st) && Enabled(st, step)
    ensures Inv(Apply(st, step))
  {
    var st' := Apply(st, step);
    var a := step.a;
    if st' != st {
      var u := st'.Of(a);
      PooledMoves(st, a, u);
      assert st'.InPool() == st.Move(a, u).InPool();
      if step.GiveUp? || step.DropSlot? {
        CountedIsPositive(st, a, st.Of(a).key);
      }
      forall k ensures HeldBy(st'.counts, k) == |st'.CountedIn(k)| {
        CountedMoves(st, a, u, k);
        assert st'.CountedIn(k) == st.Move(a, u).CountedIn(k);
        assert HeldBy(st.counts, k) == |st.CountedIn(k)|;
      }
    }
  }

  lemma {:induction false} RunsPreserve(st: State, steps: seq<Step>, end: State)
    requires Inv(st) && Runs(st, steps, end)
    ensures Inv(end)
    decreases |steps|
  {
    if steps != [] {
      StepPreserves(st, steps[0]);
      RunsPreserve(Apply(st, steps[0]), steps[1..], end);
    }
  }

  lemma ReachableInv(st: State)
    requires Reachable(st)
    ensures Inv(st)
  {
    var processLimit, perKeyLimit, steps :| RunsFrom(processLimit, perKeyLimit, steps, st);
    var start := Init(processLimit, perKeyLimit);
    assert start.InPool() == {};
    assert forall k :: start.CountedIn(k) == {};
    RunsPreserve(start, steps, st);
  }

  // ---- Main results ----------------------------------------------------------------------------

  /** In every interleaving, an account's count is its undropped permits and its attempts
      between slot and pool: never stored as zero, never past the limit. */
  lemma CountsAreExact(st: State, k: Account)
    requires Reachable(st)
    ensures HeldBy(st.counts, k) == |st.CountedIn(k)| <= st.perKeyLimit
    ensures k in st.counts <==> st.CountedIn(k) != {}
  {
    ReachableInv(st);
  }

  /** The permits out and the permits left are the pool's, always. */
  lemma PoolIsConserved(st: State)
    requires Reachable(st)
    ensures |st.InPool()| + st.free == st.processLimit
  {
    ReachableInv(st);
  }

  /** Giving a slot back never meets an absent account. */
  lemma ReleaseFindsItsAccount(st: State, step: Step)
    requires Reachable(st) && Enabled(st, step)
    requires step.GiveUp? || step.DropSlot?
    ensures st.Of(step.a).key in st.counts
  {
    ReachableInv(st);
    CountedIsPositive(st, step.a, st.Of(step.a).key);
  }

  /** Once every upload is over, the map is empty and the pool full again. */
  lemma AllDroppedRestoresAll(st: State)
    requires Reachable(st)
    requires forall a :: st.Of(a).Idle?
    ensures st.counts == map[] && st.free == st.processLimit
  {
    ReachableInv(st);
    assert st.InPool() == {} by {
      assert forall a :: a in st.uploads ==> st.Of(a).Idle?;
    }
    forall k ensures k !in st.counts {
      assert st.CountedIn(k) == {} by {
        assert forall a :: a in st.uploads ==> st.Of(a).Idle?;
      }
      assert HeldBy(st.counts, k) == 0;
    }
  }

  /** An account under its limit is refused for want of a process permit only, and only when
      none is left. */
  lemma RefusedOnlyWhenFull(st: State, a: Actor)
    requires Reachable(st) && Enabled(st, TakePermit(a))
    ensures Apply(st, TakePermit(a)).Of(a).Refused? <==> |st.InPool()| == st.processLimit
  {
    ReachableInv(st);
  }
}
