// The one way past the plain bound: a row reclaimed by another subject's admission between
// an admission's clock reading and its row reading. A concrete run, step by step.

module LimiterRace {
  import opened Prelude
  import opened SlidingWindow
  import opened LimiterProtocol
  import opened LimiterSafety

  lemma {:induction false} RunsThen(st: State, steps: seq<Step>, mid: State, step: Step)
    requires Runs(st, steps, mid) && Enabled(mid, step)
    ensures Runs(st, steps + [step], Apply(mid, step))
    decreases |steps|
  {
    if steps == [] {
      assert Runs(Apply(mid, step), [], Apply(mid, step));
      assert [step][1..] == [];
    } else {
      assert (steps + [step])[1..] == steps[1..] + [step];
      RunsThen(Apply(st, steps[0]), steps[1..], mid, step);
    }
  }

  lemma ReachableThen(st: State, step: Step) returns (end: State)
    requires Reachable(st) && Enabled(st, step)
    ensures end == Apply(st, step) && Reachable(end)
  {
    var clock, steps :| RunsFrom(clock, steps, st);
    RunsThen(Init(clock), steps, st, step);
    end := Apply(st, step);
    assert RunsFrom(clock, steps + [step], end);
  }

  ghost predicate Quiet(st: State) {
    forall a :: st.Of(a).Idle?
  }

  /** From `st`, with every actor but `a` idle, `a` gets as far as its clock reading. */
  lemma UpToClock(st: State, a: Actor, s: Subject) returns (end: State)
    requires Reachable(st) && st.Of(a).Idle?
    requires forall b :: st.Of(b).HoldsSubject() ==> st.Of(b).subject.lockKey != s.lockKey
    ensures Reachable(end) && end.db == st.db
    ensures forall b :: end.Of(b) == if b == a then Clocked(s, st.db.clock) else st.Of(b)
  {
    end := ReachableThen(st, Begin(a, s));
    assert forall b :: end.Of(b) == if b == a then Await(s) else st.Of(b);
    assert !end.SubjectLockedByOther(a, s);
    end := ReachableThen(end, LockSubject(a));
    assert forall b :: end.Of(b) == if b == a then Held(s) else st.Of(b);
    end := ReachableThen(end, ReadClock(a));
  }

  /** From its clock reading, `a` reads its row and stores its admission. */
  lemma UpToStore(st: State, a: Actor, s: Subject, now: nat) returns (end: State)
    requires Reachable(st) && st.Of(a) == Clocked(s, now)
    requires forall b :: b != a ==> !st.Of(b).LocksRow(s)
    ensures Reachable(end) && end.db == st.db
    ensures forall b :: end.Of(b) ==
              if b == a then Stored(s, now, st.db.clock, st.db.LogOf(s), {}) else st.Of(b)
  {
    end := ReachableThen(st, ReadRow(a));
    assert !end.RowLockedByOther(a, s) by {
      assert forall b :: b != a ==> end.Of(b) == st.Of(b);
    }
    end := ReachableThen(end, Store(a));
  }

  /** One whole admission of `s` with nothing else going on. */
  lemma WholeAdmission(st: State, s: Subject) returns (end: State)
    requires Reachable(st) && Quiet(st)
    requires AdmitLog(s.Rule(), st.db.LogOf(s), st.db.clock).1
    ensures Reachable(end) && Quiet(end)
    ensures end.db.clock == st.db.clock
    ensures end.db.LogOf(s) == AdmitLog(s.Rule(), st.db.LogOf(s), st.db.clock).0
    ensures end.db.HistoryOf(s) == st.db.HistoryOf(s) + [Admission(st.db.clock, st.db.clock, st.db.LogOf(s) != [])]
    ensures s in end.db.rows
    ensures forall o :: o != s ==> end.db.LogOf(o) == st.db.LogOf(o)
  {
    var mid := UpToClock(st, 1, s);
    mid := UpToStore(mid, 1, s, st.db.clock);
    AdmissionIsAlwaysStored(s.Rule(), st.db.LogOf(s), st.db.clock);
    end := ReachableThen(mid, Commit(1));
    assert forall b :: end.Of(b) == if b == 1 then Idle else mid.Of(b);
  }

  const VICTIM: Subject := Subject(AccountExistsNotice, 1, 0)
  const OTHER: Subject := Subject(AccountExistsNotice, 2, 0)

  function Zeros(n: nat): seq<nat> {
    seq(n, _ => 0)
  }

  function AtZero(n: nat): seq<Admission> {
    seq(n, i => Admission(0, 0, i > 0))
  }

  /** The victim's admissions at the start of the clock, up to its limit. */
  lemma {:induction false} Admissions(n: nat) returns (st: State)
    requires n <= VICTIM.Rule().limit
    ensures Reachable(st) && Quiet(st) && st.db.clock == 0
    ensures st.db.LogOf(VICTIM) == Zeros(n) && (n > 0 ==> VICTIM in st.db.rows)
    ensures st.db.HistoryOf(VICTIM) == AtZero(n)
    ensures st.db.LogOf(OTHER) == []
  {
    if n == 0 {
      st := Init(0);
      assert RunsFrom(0, [], st);
    } else {
      st := Admissions(n - 1);
      InsideAll(Zeros(n - 1), VICTIM.Rule().window, 0);
      assert Zeros(n) == Zeros(n - 1) + [0] && AtZero(n) == AtZero(n - 1) + [Admission(0, 0, n > 1)];
      st := WholeAdmission(st, VICTIM);
    }
  }

  lemma ThreeAdmissions() returns (st: State)
    ensures Reachable(st) && Quiet(st) && st.db.clock == 0
    ensures st.db.LogOf(VICTIM) == [0, 0, 0] && VICTIM in st.db.rows
    ensures st.db.HistoryOf(VICTIM) == AtZero(3)
    ensures st.db.LogOf(OTHER) == []
  {
    st := Admissions(3);
    assert Zeros(3) == [0, 0, 0];
  }

  /** The victim has read the clock, nobody else is under way, and its row is all admitted
      at zero. */
  ghost predicate VictimWaits(st: State) {
    && Reachable(st)
    && st.Of(1) == Clocked(VICTIM, VICTIM.Rule().window - 1)
    && (forall b :: b != 1 ==> st.Of(b).Idle?)
    && st.db.HistoryOf(VICTIM) == AtZero(3)
  }

  /** The victim reads the clock one instant before its window ends. */
  lemma VictimReadsClock() returns (st: State)
    ensures VictimWaits(st) && st.db.clock == VICTIM.Rule().window
    ensures VICTIM in st.db.rows && st.db.rows[VICTIM] == [0, 0, 0]
  {
    var before := ThreeAdmissions();
    st := ReachableThen(before, Tick(VICTIM.Rule().window - 1));
    assert forall b :: st.Of(b) == before.Of(b);
    st := UpToClock(st, 1, VICTIM);
    before := st;
    st := ReachableThen(st, Tick(1));
    assert forall b :: st.Of(b) == before.Of(b);
  }

  /** At the end of the window, the other subject's admission selects the victim's row. */
  lemma OtherForgets() returns (st: State)
    ensures Reachable(st) && st.db.clock == VICTIM.Rule().window
    ensures st.Of(1) == Clocked(VICTIM, VICTIM.Rule().window - 1)
    ensures st.Of(2).Stored? && st.Of(2).subject == OTHER && VICTIM in st.Of(2).dels
    ensures forall b :: b != 1 && b != 2 ==> st.Of(b).Idle?
    ensures st.db.HistoryOf(VICTIM) == AtZero(3)
  {
    var window := VICTIM.Rule().window;
    st := VictimReadsClock();
    st := UpToClock(st, 2, OTHER);
    st := UpToStore(st, 2, OTHER, window);
    assert Forgettable(st.db, st.Of(2), VICTIM);
    assert !st.RowLockedByOther(2, VICTIM);
    var before := st;
    st := ReachableThen(st, ForgetRow(2, VICTIM));
    assert forall b :: b != 2 ==> st.Of(b) == before.Of(b);
  }

  lemma RowReclaimed() returns (st: State)
    ensures VictimWaits(st) && st.db.clock == VICTIM.Rule().window
    ensures VICTIM !in st.db.rows
  {
    var before := OtherForgets();
    st := ReachableThen(before, Commit(2));
    assert forall b :: st.Of(b) == if b == 2 then Idle else before.Of(b);
  }

  /** The bound of `limit + 1` recorded instants per window is attained: the plain bound of
      `limit` does not hold of every interleaving. */
  lemma OneMoreThanTheLimit() returns (st: State)
    ensures Reachable(st)
    ensures CountIn(Ats(st.db.HistoryOf(VICTIM)), 0, VICTIM.Rule().window)
         == VICTIM.Rule().limit + 1
  {
    var window := VICTIM.Rule().window;
    st := RowReclaimed();
    st := UpToStore(st, 1, VICTIM, window - 1);
    st := ReachableThen(st, Commit(1));
    var ats := Ats(st.db.HistoryOf(VICTIM));
    assert ats == [0, 0, 0, window - 1];
    assert ats[..3] == [0, 0, 0] && [0, 0, 0][..2] == [0, 0] && [0, 0][..1] == [0];
    assert CountIn([0], 0, window) == 1;
    assert CountIn([0, 0], 0, window) == 2;
    assert CountIn([0, 0, 0], 0, window) == 3;
  }
}
