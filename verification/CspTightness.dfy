// The report limit's sliding bound is attained: one admission opens a window, the rest of its
// budget comes in the window's last instant, and the next window's whole budget right after.

module CspTightness {
  import opened Prelude
  import opened CspEntry
  import opened CspProtocol
  import opened CspBudgets

  const SENDER: Scope := Scope(0, 0)

  ghost predicate Quiet(st: State) {
    forall a :: st.Of(a).Idle?
  }

  lemma {:induction false} RunsThen(st: State, steps: seq<Step>, mid: State, step: Step)
    requires Runs(st, steps, mid) && Enabled(mid, step)
    ensures Runs(st, steps + [step], Apply(mid, step))
    decreases |steps|
  {
    if steps == [] {
      assert Runs(Apply(mid, step), [], Apply(mid, step));
      assert [step][1..] == [];
    } else {
      assert (steps + [step])[1..] == steps[1..] + [step];
      RunsThen(Apply(st, steps[0]), steps[1..], mid, step);
    }
  }

  lemma ReachableThen(st: State, step: Step) returns (end: State)
    requires Reachable(st) && Enabled(st, step)
    ensures end == Apply(st, step) && Reachable(end)
  {
    var clock, steps :| RunsFrom(clock, steps, st);
    RunsThen(Init(clock), steps, st, step);
    end := Apply(st, step);
    assert RunsFrom(clock, steps + [step], end);
  }

  /** Only transaction 1 is under way, at `t`. */
  ghost predicate Alone(st: State, db: Db, t: Txn) {
    Reachable(st) && st.db == db && forall a :: st.Of(a) == if a == 1 then t else Idle
  }

  /** Alone, a transaction that only waits for locks moves on. */
  lemma Moved(st: State, t: Txn, step: Step) returns (end: State)
    requires Alone(st, st.db, t) && Moves(step) && step.a == 1 && Enabled(st, step)
    ensures Alone(end, st.db, Target(st.db, t, step))
  {
    end := ReachableThen(st, step);
    assert forall a :: a != 1 ==> end.Of(a) == st.Of(a);
    assert end.Of(1) == Target(st.db, t, step);
  }

  /** Up to the row reading. */
  lemma UpToRow(st: State) returns (end: State)
    requires Reachable(st) && Quiet(st)
    ensures Alone(end, st.db, AfterRead(SENDER, st.db.clock, st.db.RowOf(SENDER)))
  {
    end := Moved(st, Idle, Begin(1, SENDER));
    assert !end.Waits(1);
    end := Moved(end, AwaitAddress(SENDER), LockAddress(1));
    end := Moved(end, HoldAddress(SENDER), ReadClock(1));
    end := Moved(end, Clocked(SENDER, st.db.clock), ReadRow(1));
  }

  lemma Committing(st: State, t: Txn) returns (end: State)
    requires Alone(st, st.db, t) && CanCommit(t)
    ensures Reachable(end) && Quiet(end) && end.db == Committed(st.db, t)
  {
    end := ReachableThen(st, Commit(1));
    assert forall a :: end.Of(a) == if a == 1 then Idle else st.Of(a);
  }

  /** With room in the table, a newcomer gets to its INSERT. */
  lemma UpToInsert(st: State) returns (end: State)
    requires Alone(st, st.db, AwaitTable(SENDER)) && |st.db.table| < MAX_TRACKED
    ensures Alone(end, st.db, Ready(SENDER, st.db.clock, {}))
  {
    var now := st.db.clock;
    assert !st.Waits(1);
    end := Moved(st, AwaitTable(SENDER), LockTable(1));
    end := Moved(end, HoldTable(SENDER), ReadTableClock(1));
    end := Moved(end, Counting(SENDER, now), CountRows(1));
  }

  /** A report from an address the table does not hold. */
  lemma NewReport(st: State) returns (end: State)
    requires Reachable(st) && Quiet(st) && SENDER !in st.db.table && |st.db.table| < MAX_TRACKED
    ensures Reachable(end) && Quiet(end)
    ensures end.db == Committed(st.db, Inserted(SENDER, st.db.clock, {}))
  {
    var now := st.db.clock;
    end := UpToRow(st);
    end := UpToInsert(end);
    end := Moved(end, Ready(SENDER, now, {}), Insert(1));
    end := Committing(end, Inserted(SENDER, now, {}));
  }

  /** The first report of all: a row is inserted. */
  lemma FirstReport() returns (st: State)
    ensures Reachable(st) && Quiet(st) && st.db.clock == 0
    ensures st.db.RowOf(SENDER) == Some(Row(1, 0))
    ensures st.db.HistoryOf(SENDER) == [Admission(0, 0)]
  {
    st := Init(0);
    assert RunsFrom(0, [], st);
    st := NewReport(st);
  }

  /** One more report, at the present instant. */
  lemma OneReport(st: State, row: Row) returns (end: State)
    requires Reachable(st) && Quiet(st) && st.db.RowOf(SENDER) == Some(row)
    requires AdmitRow(row, st.db.clock).1.Allow?
    ensures Reachable(end) && Quiet(end) && end.db.clock == st.db.clock
    ensures end.db.RowOf(SENDER) == Some(AdmitRow(row, st.db.clock).0)
    ensures end.db.HistoryOf(SENDER)
         == st.db.HistoryOf(SENDER) + [Admission(st.db.clock, AdmitRow(row, st.db.clock).0.start)]
  {
    var now := st.db.clock;
    UnchangedExactlyWhenRefused(row, now);
    end := UpToRow(st);
    assert Alone(end, st.db, Decided(SENDER, now, row));
    assert !end.Waits(1);
    end := Moved(end, Decided(SENDER, now, row), Update(1));
    end := Committing(end, Wrote(SENDER, now, AdmitRow(row, now).0, Allow));
  }

  ghost function Counted(st: State): nat {
    CountIn(Instants(st.db.HistoryOf(SENDER)), WINDOW - 1, 2 * WINDOW - 1)
  }

  lemma CountOneMore(h: seq<Admission>, admission: Admission)
    requires WINDOW - 1 <= admission.at < 2 * WINDOW - 1
    ensures CountIn(Instants(h + [admission]), WINDOW - 1, 2 * WINDOW - 1)
         == CountIn(Instants(h), WINDOW - 1, 2 * WINDOW - 1) + 1
  {
    assert Instants(h + [admission])[..|h|] == Instants(h);
  }

  /** `n` reports in one instant, within the budget of the row's window. */
  lemma {:induction false} Reports(st: State, n: nat, row: Row) returns (end: State)
    requires Reachable(st) && Quiet(st) && st.db.RowOf(SENDER) == Some(row)
    requires WINDOW - 1 <= st.db.clock < 2 * WINDOW - 1 && row.start <= st.db.clock
    requires Restarted(row, st.db.clock).requests + n <= MAX_REPORTS
    ensures Reachable(end) && Quiet(end) && end.db.clock == st.db.clock
    ensures Counted(end) == Counted(st) + n
    ensures end.db.RowOf(SENDER).Some? && end.db.RowOf(SENDER).value.start <= st.db.clock
    ensures n == 0 ==> end == st
    ensures n > 0 ==> end.db.RowOf(SENDER).value.start == Restarted(row, st.db.clock).start
    decreases n
  {
    if n == 0 {
      return st;
    }
    var now := st.db.clock;
    var next := OneReport(st, row);
    var row' := AdmitRow(row, now).0;
    assert !row'.IsStale(now);
    CountOneMore(st.db.HistoryOf(SENDER), Admission(now, row'.start));
    end := Reports(next, n - 1, row');
  }

  lemma {:induction false} Wait(st: State, until: nat) returns (end: State)
    requires Reachable(st) && Quiet(st) && st.db.clock <= until
    ensures Reachable(end) && Quiet(end) && end.db == st.db.(clock := until)
    decreases until - st.db.clock
  {
    if st.db.clock == until {
      return st;
    }
    var next := ReachableThen(st, Tick);
    assert forall a :: next.Of(a) == st.Of(a);
    end := Wait(next, until);
  }

  /** 2 * MAX_REPORTS - 1 admissions of one address in an interval one window long do happen. */
  lemma SlidingBudgetIsAttained() returns (st: State)
    ensures Reachable(st)
    ensures CountIn(Instants(st.db.HistoryOf(SENDER)), WINDOW - 1, 2 * WINDOW - 1) == 2 * MAX_REPORTS - 1
    ensures CountIn(Instants(st.db.HistoryOf(SENDER)), 899_999_999, 1_799_999_999) == 199
  {
    st := FirstReport();
    st := Wait(st, WINDOW - 1);
    assert Instants(st.db.HistoryOf(SENDER)) == [0];
    assert Counted(st) == CountIn([0], WINDOW - 1, 2 * WINDOW - 1) == 0;
    st := Reports(st, MAX_REPORTS - 1, Row(1, 0));
    var row := st.db.RowOf(SENDER).value;
    st := Wait(st, WINDOW);
    st := Reports(st, MAX_REPORTS, row);
  }
}
