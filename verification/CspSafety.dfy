// The report limit's invariant over every interleaving: histories, rows, locks and pending
// deletions agree.

module CspSafety {
  import opened Prelude
  import opened CspEntry
  import opened CspProtocol
  import opened CspHistory

  ghost predicate ScopeOk(clock: nat, row: Option<Row>, h: seq<Admission>) {
    && GoodHistory(h)
    && NotAfter(h, clock)
    && match row
       case None => Over(h, clock)
       case Some(r) => RowMatches(r, h)
  }

  ghost predicate GlobalOk(db: Db) {
    && |db.table| <= MAX_TRACKED
    && forall s :: ScopeOk(db.clock, db.RowOf(s), db.HistoryOf(s))
  }

  /** A set of deletions decided at `now`: committed rows whose window was over. */
  ghost predicate DelsOk(db: Db, now: nat, dels: set<Scope>) {
    now <= db.clock && forall s :: s in dels ==> db.StaleRow(s, now)
  }

  /** Every row over at `now` is among the deletions. */
  ghost predicate Swept(db: Db, now: nat, dels: set<Scope>) {
    forall s :: db.StaleRow(s, now) ==> s in dels
  }

  /** A newcomer past its second clock read. */
  ghost predicate NewcomerOk(db: Db, s: Scope, now: nat, dels: set<Scope>) {
    s !in db.table && Over(db.HistoryOf(s), now) && DelsOk(db, now, dels)
  }

  ghost predicate LocalOk(db: Db, t: Txn) {
    match t
    case Clocked(s, now) => now <= db.clock && NotAfter(db.HistoryOf(s), now)
    case Decided(s, now, loaded) =>
      && now <= db.clock && NotAfter(db.HistoryOf(s), now)
      && AdmitRow(loaded, now).1.Allow?
      && (s in db.table ==> db.table[s] == loaded)
    case Wrote(s, now, entry, decision) =>
      && now <= db.clock && NotAfter(db.HistoryOf(s), now)
      && s in db.table && AdmitRow(db.table[s], now) == (entry, decision) && decision.Allow?
    case Declined(_, decision) => decision.Refused?
    case AwaitTable(s) => s !in db.table
    case HoldTable(s) => s !in db.table
    case Counting(s, now) => NewcomerOk(db, s, now, {})
    case Purging(s, now, dels) => NewcomerOk(db, s, now, dels)
    case Purged(s, now, dels) => NewcomerOk(db, s, now, dels) && Swept(db, now, dels)
    case Full(s, now, dels, decision) => NewcomerOk(db, s, now, dels) && decision.Refused?
    case Ready(s, now, dels) => NewcomerOk(db, s, now, dels) && |db.Live(dels)| < MAX_TRACKED
    case Inserted(s, now, dels) => NewcomerOk(db, s, now, dels) && |db.Live(dels)| < MAX_TRACKED
    case Sweeping(now, dels) => DelsOk(db, now, dels)
    case _ => true
  }

  ghost predicate Compatible(t: Txn, u: Txn) {
    && (t.HoldsAddress() && u.HoldsAddress() ==> t.scope.lockKey != u.scope.lockKey)
    && !(t.HoldsTable() && u.HoldsTable())
    && (forall s :: !(t.LocksRow(s) && u.LocksRow(s)))
  }

  ghost predicate PairsOk(st: State) {
    forall a, b :: a != b ==> Compatible(st.Of(a), st.Of(b))
  }

  ghost predicate Inv(st: State) {
    && GlobalOk(st.db)
    && (forall a :: LocalOk(st.db, st.Of(a)))
    && PairsOk(st)
  }

  lemma InitInv(clock: nat)
    ensures Inv(Init(clock))
  {
    var st := Init(clock);
    assert forall a :: st.Of(a) == Idle;
    assert forall s :: st.db.HistoryOf(s) == [];
  }

  lemma TickPreserves(st: State)
    requires Inv(st)
    ensures Inv(Apply(st, Tick))
  {
    var st' := Apply(st, Tick);
    forall s ensures ScopeOk(st'.db.clock, st'.db.RowOf(s), st'.db.HistoryOf(s)) {
      assert ScopeOk(st.db.clock, st.db.RowOf(s), st.db.HistoryOf(s));
    }
    forall a ensures LocalOk(st'.db, st'.Of(a)) && st'.Of(a) == st.Of(a) {
      assert LocalOk(st.db, st.Of(a));
    }
  }

  // ---- Steps that move one transaction -------------------------------------------------------

  /** A row found is decided on; none found makes a newcomer. */
  lemma ReadLocal(db: Db, s: Scope, now: nat)
    requires now <= db.clock && NotAfter(db.HistoryOf(s), now)
    ensures LocalOk(db, AfterRead(s, now, db.RowOf(s)))
  {
  }

  lemma CountedLocal(db: Db, s: Scope, now: nat, dels: set<Scope>)
    requires NewcomerOk(db, s, now, dels) && Swept(db, now, dels)
    ensures LocalOk(db, AfterPurge(s, now, dels, db.Live(dels)))
  {
  }

  /** What taking the step says of the transaction's own place in the protocol. */
  ghost predicate MayTake(db: Db, t: Txn, step: Step) {
    match step
    case BeginSweep(_, now) => now <= db.clock
    case PurgeRow(_, row) => (t.Purging? || t.Sweeping?) && db.StaleRow(row, t.now)
    case EndPurge(_) => t.Purging? && Swept(db, t.now, t.dels)
    case _ => true
  }

  lemma TargetLocal(db: Db, t: Txn, step: Step)
    requires LocalOk(db, t) && Moves(step) && MayTake(db, t, step)
    requires t.IsAdmission() ==> ScopeOk(db.clock, db.RowOf(t.scope), db.HistoryOf(t.scope))
    ensures LocalOk(db, Target(db, t, step))
  {
    match (step, t)
    case (ReadRow(_), Clocked(s, now)) => ReadLocal(db, s, now);
    case (CountLive(_), Purged(s, now, dels)) => CountedLocal(db, s, now, dels);
    case (CountRows(_), Counting(_, _)) => assert db.Live({}) == db.table;
    case _ =>
  }

  lemma MoveLocal(st: State, step: Step)
    requires Inv(st) && Enabled(st, step) && Moves(step)
    ensures LocalOk(st.db, Target(st.db, st.Of(step.a), step))
  {
    var t := st.Of(step.a);
    assert LocalOk(st.db, t);
    if t.IsAdmission() {
      assert ScopeOk(st.db.clock, st.db.RowOf(t.scope), st.db.HistoryOf(t.scope));
    }
    TargetLocal(st.db, t, step);
  }

  /** `t'` holds no lock that `t` does not. */
  ghost predicate HoldsNoMore(t': Txn, t: Txn) {
    && (t'.HoldsAddress() ==> t.HoldsAddress() && t.scope == t'.scope)
    && (t'.HoldsTable() ==> t.HoldsTable())
    && (forall s :: t'.LocksRow(s) ==> t.LocksRow(s))
  }

  predicate TakesLock(step: Step) {
    step.LockAddress? || step.LockTable? || step.Update? || step.PurgeRow?
  }

  lemma TakesNoLock(db: Db, t: Txn, step: Step)
    requires Moves(step) && !TakesLock(step)
    ensures HoldsNoMore(Target(db, t, step), t)
  {
  }

  lemma MoveCompatible(st: State, step: Step, b: Actor)
    requires Inv(st) && Enabled(st, step) && Moves(step)
    requires b != step.a
    ensures Compatible(Target(st.db, st.Of(step.a), step), st.Of(b))
  {
    var t, u := st.Of(step.a), st.Of(b);
    assert Compatible(t, u);
    if !TakesLock(step) {
      TakesNoLock(st.db, t, step);
    } else if !step.PurgeRow? {
      assert !st.WaitsOn(step.a, b);
    }
  }

  lemma MovePreserves(st: State, step: Step)
    requires Inv(st) && Enabled(st, step) && Moves(step)
    ensures Inv(Apply(st, step))
  {
    var st' := Apply(st, step);
    MoveLocal(st, step);
    forall a ensures LocalOk(st'.db, st'.Of(a)) {
      assert LocalOk(st.db, st.Of(a));
    }
    forall a, b | a != b ensures Compatible(st'.Of(a), st'.Of(b)) {
      assert Compatible(st.Of(a), st.Of(b));
      if a == step.a {
        MoveCompatible(st, step, b);
      } else if b == step.a {
        MoveCompatible(st, step, a);
        assert Compatible(st'.Of(b), st'.Of(a));
      }
    }
  }

  // ---- Commits ---------------------------------------------------------------------------------

  lemma WroteScope(db: Db, t: Txn, s: Scope)
    requires t.Wrote? && LocalOk(db, t) && ScopeOk(db.clock, db.RowOf(s), db.HistoryOf(s))
    ensures var db' := Committed(db, t);
            ScopeOk(db'.clock, db'.RowOf(s), db'.HistoryOf(s))
  {
    if s == t.scope { AppendInWindow(db.HistoryOf(s), db.table[s], t.now); }
  }

  lemma InsertedScope(db: Db, t: Txn, s: Scope)
    requires t.Inserted? && LocalOk(db, t) && ScopeOk(db.clock, db.RowOf(s), db.HistoryOf(s))
    ensures var db' := Committed(db, t);
            ScopeOk(db'.clock, db'.RowOf(s), db'.HistoryOf(s))
  {
    if s == t.scope {
      AppendOver(db.HistoryOf(s), t.now);
    } else {
      DeletedScope(db, t.now, t.dels, s);
    }
  }

  /** A row that was over and is deleted leaves a history that is over. */
  lemma DeletedScope(db: Db, now: nat, dels: set<Scope>, s: Scope)
    requires DelsOk(db, now, dels) && ScopeOk(db.clock, db.RowOf(s), db.HistoryOf(s))
    ensures ScopeOk(db.clock, if s in db.Live(dels) then Some(db.table[s]) else None, db.HistoryOf(s))
  {
  }

  lemma CommitScope(db: Db, t: Txn, s: Scope)
    requires GlobalOk(db) && LocalOk(db, t)
    ensures var db' := Committed(db, t);
            ScopeOk(db'.clock, db'.RowOf(s), db'.HistoryOf(s))
  {
    assert ScopeOk(db.clock, db.RowOf(s), db.HistoryOf(s));
    if t.Wrote? {
      WroteScope(db, t, s);
    } else if t.Inserted? {
      InsertedScope(db, t, s);
    } else {
      if t.Dels() == {} {
        DeletedScope(db, db.clock, {}, s);
      } else {
        OwnDelsOk(db, t);
        DeletedScope(db, t.now, t.Dels(), s);
      }
    }
  }

  lemma OwnDelsOk(db: Db, t: Txn)
    requires LocalOk(db, t) && t.Dels() != {}
    ensures DelsOk(db, t.now, t.Dels())
  {
  }

  lemma SubsetSize<T>(a: set<T>, b: set<T>)
    requires a <= b
    ensures |a| <= |b|
  {
    assert b == a + (b - a);
    assert |b| == |a| + |b - a|;
  }

  lemma FewerRows(a: map<Scope, Row>, b: map<Scope, Row>)
    requires a.Keys <= b.Keys
    ensures |a| <= |b|
  {
    SubsetSize(a.Keys, b.Keys);
    assert |a.Keys| == |a| && |b.Keys| == |b|;
  }

  lemma OneMoreRow(a: map<Scope, Row>, s: Scope, row: Row)
    ensures |a[s := row]| <= |a| + 1
    ensures s in a ==> |a[s := row]| <= |a|
  {
    var b := a[s := row];
    assert b.Keys == a.Keys + {s};
    assert |b.Keys| == |b| && |a.Keys| == |a|;
    if s in a { assert b.Keys == a.Keys; }
  }

  lemma CommitCeiling(db: Db, t: Txn)
    requires |db.table| <= MAX_TRACKED && LocalOk(db, t)
    ensures |Committed(db, t).table| <= MAX_TRACKED
  {
    match t
    case Wrote(s, _, entry, _) => OneMoreRow(db.table, s, entry);
    case Inserted(s, now, dels) => OneMoreRow(db.Live(dels), s, First(now));
    case _ => FewerRows(db.Live(t.Dels()), db.table);
  }

  /** Nothing transaction `u` relies on differs between `db` and `db'`. */
  ghost predicate Unaffected(db: Db, db': Db, u: Txn) {
    && db'.clock == db.clock
    && (u.HoldsAddress() ==>
         && db'.HistoryOf(u.scope) == db.HistoryOf(u.scope)
         && (u.scope in db'.table ==>
              u.scope in db.table && db'.table[u.scope] == db.table[u.scope]))
    && (u.Wrote? ==> u.scope in db'.table)
    && (forall s :: s in u.Dels() && s in db.table ==>
         s in db'.table && db'.table[s] == db.table[s])
    && (u.HoldsTable() ==> OnlyOlder(db.table, db'.table))
  }

  /** No row appeared or had its window moved back. */
  ghost predicate OnlyOlder(table: map<Scope, Row>, table': map<Scope, Row>) {
    forall s :: s in table' ==> s in table && table[s].start <= table'[s].start
  }

  lemma NewcomerUnaffected(db: Db, db': Db, s: Scope, now: nat, dels: set<Scope>)
    requires db'.clock == db.clock && OnlyOlder(db.table, db'.table)
    requires db'.HistoryOf(s) == db.HistoryOf(s)
    requires forall d :: d in dels && d in db.table ==> d in db'.table && db'.table[d] == db.table[d]
    requires NewcomerOk(db, s, now, dels)
    ensures NewcomerOk(db', s, now, dels)
    ensures Swept(db, now, dels) ==> Swept(db', now, dels)
    ensures |db'.Live(dels)| <= |db.Live(dels)|
  {
    FewerRows(db'.Live(dels), db.Live(dels));
  }

  lemma UnaffectedLocal(db: Db, db': Db, u: Txn)
    requires Unaffected(db, db', u) && LocalOk(db, u)
    ensures LocalOk(db', u)
  {
    if u.HoldsTable() && !u.HoldTable? {
      NewcomerUnaffected(db, db', u.scope, u.now, u.Dels());
    }
  }

  lemma WriteUnaffected(db: Db, t: Txn, u: Txn)
    requires t.Wrote? && LocalOk(db, t)
    requires u.HoldsAddress() ==> u.scope != t.scope
    requires t.scope !in u.Dels()
    requires LocalOk(db, u)
    ensures Unaffected(db, Committed(db, t), u)
  {
  }

  lemma InsertUnaffected(db: Db, t: Txn, u: Txn)
    requires t.Inserted? && LocalOk(db, t)
    requires u.HoldsAddress() ==> u.scope != t.scope
    requires u.Wrote? ==> u.scope !in t.dels
    requires t.dels !! u.Dels() && !u.HoldsTable()
    requires LocalOk(db, u)
    ensures Unaffected(db, Committed(db, t), u)
  {
  }

  lemma DeleteUnaffected(db: Db, t: Txn, u: Txn)
    requires !t.Wrote? && !t.Inserted?
    requires u.Wrote? ==> u.scope !in t.Dels()
    requires t.Dels() !! u.Dels()
    requires LocalOk(db, u)
    ensures Unaffected(db, Committed(db, t), u)
  {
  }

  lemma CommitUnaffected(db: Db, t: Txn, u: Txn)
    requires LocalOk(db, t) && LocalOk(db, u)
    requires Compatible(t, u)
    requires CanCommit(t)
    ensures Unaffected(db, Committed(db, t), u)
  {
    forall s | s in t.Dels() ensures t.LocksRow(s) && !u.LocksRow(s) {}
    assert u.Wrote? ==> u.LocksRow(u.scope);
    assert forall s :: s in u.Dels() ==> u.LocksRow(s);
    if t.Wrote? {
      assert t.LocksRow(t.scope);
      WriteUnaffected(db, t, u);
    } else if t.Inserted? {
      assert t.Dels() == t.dels && t.HoldsTable();
      InsertUnaffected(db, t, u);
    } else {
      DeleteUnaffected(db, t, u);
    }
  }

  lemma CommitGlobal(db: Db, t: Txn)
    requires GlobalOk(db) && LocalOk(db, t)
    ensures GlobalOk(Committed(db, t))
  {
    var db' := Committed(db, t);
    forall s ensures ScopeOk(db'.clock, db'.RowOf(s), db'.HistoryOf(s)) {
      CommitScope(db, t, s);
    }
    CommitCeiling(db, t);
  }

  lemma CommitLocal(st: State, a: Actor, b: Actor)
    requires Inv(st) && Enabled(st, Commit(a)) && b != a
    ensures LocalOk(Committed(st.db, st.Of(a)), st.Of(b))
  {
    var t, u := st.Of(a), st.Of(b);
    assert Compatible(t, u) && LocalOk(st.db, t) && LocalOk(st.db, u);
    CommitUnaffected(st.db, t, u);
    UnaffectedLocal(st.db, Committed(st.db, t), u);
  }

  lemma IdlePairs(st: State, a: Actor)
    requires PairsOk(st)
    ensures PairsOk(st.Put(a, Idle))
  {
    var st' := st.Put(a, Idle);
    forall b, c | b != c ensures Compatible(st'.Of(b), st'.Of(c)) {
      assert Compatible(st.Of(b), st.Of(c));
    }
  }

  lemma CommitPreserves(st: State, a: Actor)
    requires Inv(st) && Enabled(st, Commit(a))
    ensures Inv(Apply(st, Commit(a)))
  {
    var db' := Committed(st.db, st.Of(a));
    var st' := Apply(st, Commit(a));
    assert LocalOk(st.db, st.Of(a));
    CommitGlobal(st.db, st.Of(a));
    forall b ensures LocalOk(db', st'.Of(b)) {
      if b != a { CommitLocal(st, a, b); }
    }
    IdlePairs(st, a);
    assert forall b :: st'.Of(b) == st.Put(a, Idle).Of(b);
  }

  lemma StepPreserves(st: State, step: Step)
    requires Inv(st) && Enabled(st, step)
    ensures Inv(Apply(st, step))
  {
    match step
    case Tick => TickPreserves(st);
    case Commit(a) => CommitPreserves(st, a);
    case _ => MovePreserves(st, step);
  }

  lemma {:induction false} RunsPreserve(st: State, steps: seq<Step>, end: State)
    requires Inv(st) && Runs(st, steps, end)
    ensures Inv(end)
    decreases |steps|
  {
    if steps != [] {
      StepPreserves(st, steps[0]);
      RunsPreserve(Apply(st, steps[0]), steps[1..], end);
    }
  }

  lemma ReachableInv(st: State)
    requires Reachable(st)
    ensures Inv(st)
  {
    var clock, steps :| RunsFrom(clock, steps, st);
    InitInv(clock);
    RunsPreserve(Init(clock), steps, st);
  }
}
