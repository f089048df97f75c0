// `SlidingLimiter::admit` on every replica at once, with the hourly purge beside it. Each
// statement of the transaction is one step; writes become visible at the commit.

module LimiterProtocol {
  import opened Prelude
  import opened SlidingWindow

  datatype Kind = RecipeImport | OpenFoodFacts | AccountExistsNotice | GoogleIdToken

  const SECOND: nat := 1_000_000 // the database's clock counts microseconds

  /** The limits kept in `rate_limit_log`. */
  function LimitOf(kind: Kind): Rule {
    match kind
    case RecipeImport => Rule(10, 600 * SECOND)
    case OpenFoodFacts => Rule(15, 60 * SECOND)
    case AccountExistsNotice => Rule(3, 86_400 * SECOND)
    case GoogleIdToken => Rule(20, 600 * SECOND)
  }

  /** A counted subject, as its pseudonym. Its advisory lock sees the first four bytes only,
      whatever the kind. */
  datatype Subject = Subject(kind: Kind, lockKey: int, rest: nat) {
    function Rule(): Rule { LimitOf(kind) }
  }

  type Actor = nat

  /** A committed admission: the instant it recorded, the one its row was read at, and whether
      there was a row then. */
  datatype Admission = Admission(at: nat, readAt: nat, found: bool)

  datatype Txn =
    | Idle
    | Await(subject: Subject)
    | Held(subject: Subject)
    | Clocked(subject: Subject, now: nat)
    | Loaded(subject: Subject, now: nat, readAt: nat, before: seq<nat>)
    | Stored(subject: Subject, now: nat, readAt: nat, before: seq<nat>, dels: set<Subject>)
    | Sweeping(now: nat, dels: set<Subject>)
  {
    predicate HoldsSubject() { !Idle? && !Await? && !Sweeping? }

    function Log(): seq<nat>
      requires Loaded? || Stored?
    {
      AdmitLog(subject.Rule(), before, now).0
    }

    predicate Admitted()
      requires Loaded? || Stored?
    {
      AdmitLog(subject.Rule(), before, now).1
    }

    /** A row was there to read: stored rows are never empty. */
    predicate Found()
      requires Loaded? || Stored?
    {
      before != []
    }

    /** The subject's own row is rewritten or deleted, not left alone. */
    predicate Changes()
      requires Loaded? || Stored?
    {
      Log() == [] || Log() != before
    }

    function Dels(): set<Subject> {
      if Stored? || Sweeping? then dels else {}
    }

    predicate LocksRow(s: Subject) {
      (Stored? && subject == s && Changes()) || s in Dels()
    }
  }

  datatype Db = Db(clock: nat, rows: map<Subject, seq<nat>>, history: map<Subject, seq<Admission>>) {
    function LogOf(s: Subject): seq<nat> {
      if s in rows then rows[s] else []
    }

    function HistoryOf(s: Subject): seq<Admission> {
      if s in history then history[s] else []
    }
  }

  datatype State = State(db: Db, txns: map<Actor, Txn>) {
    function Of(a: Actor): Txn {
      if a in txns then txns[a] else Idle
    }

    function Put(a: Actor, t: Txn): State {
      this.(txns := txns[a := t])
    }

    ghost predicate RowLockedByOther(a: Actor, s: Subject) {
      exists b :: b != a && Of(b).LocksRow(s)
    }

    ghost predicate SubjectLockedByOther(a: Actor, s: Subject) {
      exists b :: b != a && Of(b).HoldsSubject() && Of(b).subject.lockKey == s.lockKey
    }
  }

  function Init(clock: nat): State {
    State(Db(clock, map[], map[]), map[])
  }

  datatype Step =
    | Tick(elapsed: nat)
    | Begin(a: Actor, subject: Subject)
    | LockSubject(a: Actor)
    | ReadClock(a: Actor)
    | ReadRow(a: Actor)
    | Store(a: Actor)
    | ForgetRow(a: Actor, row: Subject)
    | Commit(a: Actor)
    | Abort(a: Actor)
    | BeginSweep(a: Actor, now: nat)

  /** The row as the transaction sees it, its own write included. */
  function View(db: Db, t: Txn, s: Subject): seq<nat> {
    if t.Stored? && s == t.subject && t.Changes() then t.Log() else db.LogOf(s)
  }

  /** A row the transaction's DELETE selects: of its kind, or of any kind for the purge. */
  predicate Forgettable(db: Db, t: Txn, s: Subject) {
    && (t.Stored? || t.Sweeping?)
    && (t.Stored? ==> s.kind == t.subject.kind)
    && s !in t.dels
    && SqlForgets(View(db, t, s), s.Rule().window, t.now)
  }

  ghost predicate Enabled(st: State, step: Step) {
    match step
    case Tick(_) => true
    case Begin(a, _) => st.Of(a).Idle?
    case LockSubject(a) => st.Of(a).Await? && !st.SubjectLockedByOther(a, st.Of(a).subject)
    case ReadClock(a) => st.Of(a).Held?
    case ReadRow(a) => st.Of(a).Clocked?
    case Store(a) =>
      st.Of(a).Loaded? && (st.Of(a).Changes() ==> !st.RowLockedByOther(a, st.Of(a).subject))
    case ForgetRow(a, s) => Forgettable(st.db, st.Of(a), s) && !st.RowLockedByOther(a, s)
    case Commit(a) => st.Of(a).Stored? || st.Of(a).Sweeping?
    case Abort(a) => !st.Of(a).Idle?
    case BeginSweep(a, now) => st.Of(a).Idle? && now <= st.db.clock
  }

  predicate Moves(step: Step) {
    !step.Tick? && !step.Commit?
  }

  function Target(db: Db, t: Txn, step: Step): Txn
    requires Moves(step)
  {
    match (step, t)
    case (Begin(_, s), _) => Await(s)
    case (LockSubject(_), Await(s)) => Held(s)
    case (ReadClock(_), Held(s)) => Clocked(s, db.clock)
    case (ReadRow(_), Clocked(s, now)) => Loaded(s, now, db.clock, db.LogOf(s))
    case (Store(_), Loaded(s, now, readAt, before)) => Stored(s, now, readAt, before, {})
    case (ForgetRow(_, row), Stored(s, now, readAt, before, dels)) =>
      Stored(s, now, readAt, before, dels + {row})
    case (ForgetRow(_, row), Sweeping(now, dels)) => Sweeping(now, dels + {row})
    case (BeginSweep(_, now), _) => Sweeping(now, {})
    case _ => Idle
  }

  function Written(rows: map<Subject, seq<nat>>, t: Txn): map<Subject, seq<nat>>
    requires t.Stored?
  {
    if t.Log() == [] then rows - {t.subject}
    else if t.Log() != t.before then rows[t.subject := t.Log()]
    else rows
  }

  function Committed(db: Db, t: Txn): Db {
    match t
    case Stored(s, now, readAt, _, dels) =>
      db.(rows := Written(db.rows, t) - dels,
          history := if t.Admitted() then
                       db.history[s := db.HistoryOf(s) + [Admission(now, readAt, t.Found())]]
                     else db.history)
    case _ => db.(rows := db.rows - t.Dels())
  }

  ghost function Apply(st: State, step: Step): State
    requires Enabled(st, step)
  {
    match step
    case Tick(elapsed) => st.(db := st.db.(clock := st.db.clock + elapsed))
    case Commit(a) => State(Committed(st.db, st.Of(a)), st.txns[a := Idle])
    case _ => st.Put(step.a, Target(st.db, st.Of(step.a), step))
  }

  ghost predicate Runs(st: State, steps: seq<Step>, end: State)
    decreases |steps|
  {
    if steps == [] then st == end
    else Enabled(st, steps[0]) && Runs(Apply(st, steps[0]), steps[1..], end)
  }

  ghost predicate RunsFrom(clock: nat, steps: seq<Step>, end: State) {
    Runs(Init(clock), steps, end)
  }

  ghost predicate Reachable(st: State) {
    exists clock, steps :: RunsFrom(clock, steps, st)
  }
}
