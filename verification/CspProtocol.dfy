// `ReportThrottle::admit` on every replica at once, as a state machine. Each statement of the
// transaction is one step; a transaction's writes become visible, and its locks are released,
// at its commit. The hourly retention purge runs beside the admissions.

module CspProtocol {
  import opened Prelude
  import opened CspEntry

  /** An address's pseudonym. Advisory locks see its first four bytes only, so two addresses
      may share a lock. */
  datatype Scope = Scope(lockKey: int, rest: nat)

  type Actor = nat

  /** Where a transaction is. `dels` are the rows it has deleted and not yet committed. */
  datatype Txn =
    | Idle
    | AwaitAddress(scope: Scope)
    | HoldAddress(scope: Scope)
    | Clocked(scope: Scope, now: nat)
    | Decided(scope: Scope, now: nat, loaded: Row)
    | Wrote(scope: Scope, now: nat, entry: Row, decision: Decision)
    | Declined(scope: Scope, decision: Decision)
    | AwaitTable(scope: Scope)
    | HoldTable(scope: Scope)
    | Counting(scope: Scope, now: nat)
    | Purging(scope: Scope, now: nat, dels: set<Scope>)
    | Purged(scope: Scope, now: nat, dels: set<Scope>)
    | Full(scope: Scope, now: nat, dels: set<Scope>, decision: Decision)
    | Ready(scope: Scope, now: nat, dels: set<Scope>)
    | Inserted(scope: Scope, now: nat, dels: set<Scope>)
    | Sweeping(now: nat, dels: set<Scope>)
  {
    predicate IsAdmission() { !Idle? && !Sweeping? }

    /** Holds the advisory lock of its address. */
    predicate HoldsAddress() { IsAdmission() && !AwaitAddress? }

    /** Has taken the table's advisory lock. */
    predicate HoldsTable() {
      HoldTable? || Counting? || Purging? || Purged? || Full? || Ready? || Inserted?
    }

    function Dels(): set<Scope> {
      if Purging? || Purged? || Full? || Ready? || Inserted? || Sweeping? then dels else {}
    }

    /** What the caller is told once the transaction commits. */
    function Answer(): Decision
      requires Wrote? || Declined? || Full? || Inserted?
    {
      if Inserted? then Allow else decision
    }

    /** The committed rows it holds a row lock on: the one it updated, those it deleted. */
    predicate LocksRow(s: Scope) {
      (Wrote? && scope == s) || s in Dels()
    }
  }

  /** A committed admission: the instant it was decided at, and the window it was counted in. */
  datatype Admission = Admission(at: nat, start: nat)

  /** What transactions share: the clock, the committed rows, the committed admissions. */
  datatype Db = Db(clock: nat, table: map<Scope, Row>, history: map<Scope, seq<Admission>>) {
    function RowOf(s: Scope): Option<Row> {
      if s in table then Some(table[s]) else None
    }

    function HistoryOf(s: Scope): seq<Admission> {
      if s in history then history[s] else []
    }

    /** Rows whose window is over at `now`. */
    predicate StaleRow(s: Scope, now: nat) {
      s in table && table[s].IsStale(now)
    }

    /** The table as a transaction sees it past its own deletions. */
    function Live(dels: set<Scope>): map<Scope, Row> {
      table - dels
    }

    function Recorded(s: Scope, admission: Admission): map<Scope, seq<Admission>> {
      history[s := HistoryOf(s) + [admission]]
    }
  }

  datatype State = State(db: Db, txns: map<Actor, Txn>) {
    function Of(a: Actor): Txn {
      if a in txns then txns[a] else Idle
    }

    function Put(a: Actor, t: Txn): State {
      this.(txns := txns[a := t])
    }

    /** `a` waits for something `b` holds. */
    ghost predicate WaitsOn(a: Actor, b: Actor) {
      a != b &&
      match Of(a)
      case AwaitAddress(s) => Of(b).HoldsAddress() && Of(b).scope.lockKey == s.lockKey
      case Decided(s, _, _) => Of(b).LocksRow(s)
      case AwaitTable(_) => Of(b).HoldsTable()
      case Purging(_, now, dels) =>
        exists s :: db.StaleRow(s, now) && s !in dels && Of(b).LocksRow(s)
      case _ => false
    }

    ghost predicate Waits(a: Actor) {
      exists b :: WaitsOn(a, b)
    }

    ghost predicate RowLockedByOther(a: Actor, s: Scope) {
      exists b :: b != a && Of(b).LocksRow(s)
    }
  }

  function Init(clock: nat): State {
    State(Db(clock, map[], map[]), map[])
  }

  ghost predicate IsEarliest(rows: map<Scope, Row>, s: Scope) {
    s in rows && forall t :: t in rows ==> rows[s].start <= rows[t].start
  }

  lemma {:induction false} EarliestExists(rows: map<Scope, Row>, s: Scope)
    requires s in rows
    ensures exists least :: IsEarliest(rows, least)
    decreases |rows|
  {
    var rest := rows - {s};
    if other :| other in rest {
      assert rows.Keys == rest.Keys + {s};
      EarliestExists(rest, other);
      var m :| IsEarliest(rest, m);
      assert IsEarliest(rows, if rows[m].start <= rows[s].start then m else s);
    } else {
      assert forall t :: t in rows && t != s ==> t in rest;
      assert IsEarliest(rows, s);
    }
  }

  /** `min(window_start)`. */
  ghost function Earliest(rows: map<Scope, Row>): (earliest: Option<nat>)
    ensures earliest.None? <==> rows == map[]
    ensures earliest.Some? ==> exists s :: s in rows && rows[s].start == earliest.value
    ensures earliest.Some? ==> forall t :: t in rows ==> earliest.value <= rows[t].start
  {
    if rows == map[] then None
    else
      var any :| any in rows;
      EarliestExists(rows, any);
      var s :| IsEarliest(rows, s);
      Some(rows[s].start)
  }

  datatype Step =
    | Tick
    | Begin(a: Actor, scope: Scope)
    | LockAddress(a: Actor)
    | ReadClock(a: Actor)
    | ReadRow(a: Actor)
    | Update(a: Actor)
    | LockTable(a: Actor)
    | ReadTableClock(a: Actor)
    | CountRows(a: Actor)
    | PurgeRow(a: Actor, row: Scope)
    | EndPurge(a: Actor)
    | CountLive(a: Actor)
    | Insert(a: Actor)
    | Commit(a: Actor)
    | Abort(a: Actor)
    | BeginSweep(a: Actor, now: nat)

  ghost predicate Enabled(st: State, step: Step) {
    match step
    case Tick => true
    case Begin(a, _) => st.Of(a).Idle?
    case LockAddress(a) => st.Of(a).AwaitAddress? && !st.Waits(a)
    case ReadClock(a) => st.Of(a).HoldAddress?
    case ReadRow(a) => st.Of(a).Clocked?
    case Update(a) => st.Of(a).Decided? && !st.Waits(a)
    case LockTable(a) => st.Of(a).AwaitTable? && !st.Waits(a)
    case ReadTableClock(a) => st.Of(a).HoldTable?
    case CountRows(a) => st.Of(a).Counting?
    case PurgeRow(a, s) =>
      (st.Of(a).Purging? || st.Of(a).Sweeping?) && st.db.StaleRow(s, st.Of(a).now)
      && s !in st.Of(a).dels && !st.RowLockedByOther(a, s)
    case EndPurge(a) =>
      st.Of(a).Purging? && forall s :: st.db.StaleRow(s, st.Of(a).now) ==> s in st.Of(a).dels
    case CountLive(a) => st.Of(a).Purged?
    case Insert(a) => st.Of(a).Ready? && st.Of(a).scope !in st.db.table
    case Commit(a) => CanCommit(st.Of(a))
    case Abort(a) => !st.Of(a).Idle?
    case BeginSweep(a, now) => st.Of(a).Idle? && now <= st.db.clock
  }

  predicate CanCommit(t: Txn) {
    t.Wrote? || t.Declined? || t.Full? || t.Inserted? || t.Sweeping?
  }

  /** Steps that move one transaction and touch nothing shared. */
  predicate Moves(step: Step) {
    !step.Tick? && !step.Commit?
  }

  /** Where such a step takes its transaction. */
  ghost function Target(db: Db, t: Txn, step: Step): Txn
    requires Moves(step)
  {
    match (step, t)
    case (Begin(_, s), _) => AwaitAddress(s)
    case (LockAddress(_), AwaitAddress(s)) => HoldAddress(s)
    case (ReadClock(_), HoldAddress(s)) => Clocked(s, db.clock)
    case (ReadRow(_), Clocked(s, now)) => AfterRead(s, now, db.RowOf(s))
    case (Update(_), Decided(s, now, loaded)) =>
      // One row written, or none if the row went since it was read.
      var (entry, decision) := AdmitRow(loaded, now);
      if s in db.table then Wrote(s, now, entry, decision) else AwaitTable(s)
    case (LockTable(_), AwaitTable(s)) => HoldTable(s)
    case (ReadTableClock(_), HoldTable(s)) => Counting(s, db.clock)
    case (CountRows(_), Counting(s, now)) =>
      if |db.table| >= MAX_TRACKED then Purging(s, now, {}) else Ready(s, now, {})
    case (PurgeRow(_, row), Purging(s, now, dels)) => Purging(s, now, dels + {row})
    case (PurgeRow(_, row), Sweeping(now, dels)) => Sweeping(now, dels + {row})
    case (EndPurge(_), Purging(s, now, dels)) => Purged(s, now, dels)
    case (CountLive(_), Purged(s, now, dels)) => AfterPurge(s, now, dels, db.Live(dels))
    case (Insert(_), Ready(s, now, dels)) => Inserted(s, now, dels)
    case (BeginSweep(_, now), _) => Sweeping(now, {})
    case _ => Idle
  }

  /** The row was found or not; a found one is decided on the clock read under the lock. */
  function AfterRead(s: Scope, now: nat, found: Option<Row>): Txn {
    match found
    case None => AwaitTable(s)
    case Some(row) =>
      var (entry, decision) := AdmitRow(row, now);
      if entry == row then Declined(s, decision) else Decided(s, now, row)
  }

  /** The second count, once the stale rows are gone. */
  ghost function AfterPurge(s: Scope, now: nat, dels: set<Scope>, live: map<Scope, Row>): Txn {
    match RefuseNewcomer(|live|, Earliest(live), now)
    case Some(refused) => Full(s, now, dels, refused)
    case None => Ready(s, now, dels)
  }

  /** What a commit makes visible. */
  function Committed(db: Db, t: Txn): Db {
    match t
    case Wrote(s, now, entry, _) =>
      db.(table := db.table[s := entry], history := db.Recorded(s, Admission(now, entry.start)))
    case Inserted(s, now, dels) =>
      db.(table := db.Live(dels)[s := First(now)], history := db.Recorded(s, Admission(now, now)))
    case _ => db.(table := db.Live(t.Dels()))
  }

  ghost function Apply(st: State, step: Step): State
    requires Enabled(st, step)
  {
    match step
    case Tick => st.(db := st.db.(clock := st.db.clock + 1))
    case Commit(a) => State(Committed(st.db, st.Of(a)), st.txns[a := Idle])
    case _ => st.Put(step.a, Target(st.db, st.Of(step.a), step))
  }

  /** `steps` can be taken one after the other from `st`, and lead to `end`. */
  ghost predicate Runs(st: State, steps: seq<Step>, end: State)
    decreases |steps|
  {
    if steps == [] then st == end
    else Enabled(st, steps[0]) && Runs(Apply(st, steps[0]), steps[1..], end)
  }

  ghost predicate RunsFrom(clock: nat, steps: seq<Step>, end: State) {
    Runs(Init(clock), steps, end)
  }

  ghost predicate Reachable(st: State) {
    exists clock, steps :: RunsFrom(clock, steps, st)
  }
}
