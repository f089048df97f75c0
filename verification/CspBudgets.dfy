// What the report limit guarantees in every interleaving: budgets, the table and its rows.

module CspBudgets {
  import opened Prelude
  import opened CspEntry
  import opened CspProtocol
  import opened CspHistory
  import opened CspSafety

  function Instants(h: seq<Admission>): (instants: seq<nat>)
    ensures |instants| == |h|
    ensures forall i :: 0 <= i < |h| ==> instants[i] == h[i].at
  {
    seq(|h|, i requires 0 <= i < |h| => h[i].at)
  }

  function Starts(h: seq<Admission>): (starts: seq<nat>)
    ensures |starts| == |h|
    ensures forall i :: 0 <= i < |h| ==> starts[i] == h[i].start
  {
    seq(|h|, i requires 0 <= i < |h| => h[i].start)
  }

  /** Two windows' worth of consecutive admissions take longer than one window. */
  lemma TwiceTheBudgetSpansAWindow(h: seq<Admission>, i: nat)
    requires GoodHistory(h)
    requires i + 2 * MAX_REPORTS - 1 < |h|
    ensures h[i].at + WINDOW <= h[i + 2 * MAX_REPORTS - 1].at
  {
    var last := i + 2 * MAX_REPORTS - 1;
    assert InWindow(h[i]) && InWindow(h[last]) && Opened(h, i);
    if h[i].at == h[i].start {
      assert Budgeted(h, i);
      assert Follows(h[i], h[i + MAX_REPORTS]) && Follows(h[i + MAX_REPORTS], h[last]);
    } else {
      assert Budgeted(h, i - 1) && Budgeted(h, last - MAX_REPORTS);
      assert last - MAX_REPORTS == i - 1 + MAX_REPORTS;
      assert Follows(h[i - 1], h[last - MAX_REPORTS]) && Follows(h[last - MAX_REPORTS], h[last]);
    }
  }

  lemma SlidingCount(h: seq<Admission>, from: nat)
    requires GoodHistory(h)
    ensures CountIn(Instants(h), from, from + WINDOW) <= 2 * MAX_REPORTS - 1
  {
    forall i: int | 0 <= i && i + (2 * MAX_REPORTS - 1) < |h|
      ensures Instants(h)[i] + WINDOW <= Instants(h)[i + (2 * MAX_REPORTS - 1)]
    {
      TwiceTheBudgetSpansAWindow(h, i);
    }
    assert forall i, j :: 0 <= i < j < |h| ==> Follows(h[i], h[j]);
    SparseCount(Instants(h), 2 * MAX_REPORTS - 1, from, WINDOW);
  }

  lemma WindowCount(h: seq<Admission>, start: nat)
    requires GoodHistory(h)
    ensures CountIn(Starts(h), start, start + WINDOW) <= MAX_REPORTS
  {
    forall i: int | 0 <= i && i + MAX_REPORTS < |h|
      ensures Starts(h)[i] + WINDOW <= Starts(h)[i + MAX_REPORTS]
    {
      assert Budgeted(h, i) && Follows(h[i], h[i + MAX_REPORTS]);
    }
    assert forall i, j :: 0 <= i < j < |h| ==> Follows(h[i], h[j]);
    SparseCount(Starts(h), MAX_REPORTS, start, WINDOW);
  }

  /** In every run, an address gets at most 2 * MAX_REPORTS - 1 admissions in any half-open
      interval one window long. */
  lemma SlidingBudget(st: State, s: Scope, from: nat)
    requires Reachable(st)
    ensures CountIn(Instants(st.db.HistoryOf(s)), from, from + WINDOW) <= 2 * MAX_REPORTS - 1
  {
    ReachableInv(st);
    assert ScopeOk(st.db.clock, st.db.RowOf(s), st.db.HistoryOf(s));
    SlidingCount(st.db.HistoryOf(s), from);
  }

  /** In every run, windows of one address never overlap and none holds more than MAX_REPORTS
      admissions. */
  lemma WindowBudget(st: State, s: Scope, start: nat)
    requires Reachable(st)
    ensures CountIn(Starts(st.db.HistoryOf(s)), start, start + WINDOW) <= MAX_REPORTS
    ensures forall i, j :: 0 <= i < j < |st.db.HistoryOf(s)| ==>
              Follows(st.db.HistoryOf(s)[i], st.db.HistoryOf(s)[j])
  {
    ReachableInv(st);
    assert ScopeOk(st.db.clock, st.db.RowOf(s), st.db.HistoryOf(s));
    WindowCount(st.db.HistoryOf(s), start);
  }

  /** The table never holds more than MAX_TRACKED rows, and a row counts the admissions of
      its address's last window, no more and no fewer. */
  lemma TableCeiling(st: State, s: Scope)
    requires Reachable(st)
    ensures |st.db.table| <= MAX_TRACKED
    ensures s in st.db.table ==> RowMatches(st.db.table[s], st.db.HistoryOf(s))
  {
    ReachableInv(st);
    assert ScopeOk(st.db.clock, st.db.RowOf(s), st.db.HistoryOf(s));
  }

  /** The INSERT never conflicts: neither a committed row nor another transaction's pending
      row is there. */
  lemma InsertNeverConflicts(st: State, a: Actor, b: Actor)
    requires Reachable(st)
    requires st.Of(a).Ready? && a != b
    ensures Enabled(st, Insert(a))
    ensures st.Of(b).Inserted? ==> st.Of(b).scope != st.Of(a).scope
  {
    ReachableInv(st);
    assert LocalOk(st.db, st.Of(a)) && Compatible(st.Of(a), st.Of(b));
  }

  /** No step of any admission or purge removes a row whose window is still open. */
  lemma OpenWindowsAreKept(st: State, step: Step, s: Scope)
    requires Reachable(st) && Enabled(st, step)
    requires s in st.db.table && s !in Apply(st, step).db.table
    ensures st.db.table[s].IsStale(st.db.clock)
  {
    ReachableInv(st);
    OnlyCommitsRemove(st, step, s);
    GoneWasDeleted(st.db, st.Of(step.a), s);
    assert LocalOk(st.db, st.Of(step.a));
    OwnDelsOk(st.db, st.Of(step.a));
  }

  lemma OnlyCommitsRemove(st: State, step: Step, s: Scope)
    requires Enabled(st, step) && s in st.db.table && s !in Apply(st, step).db.table
    ensures step.Commit? && s !in Committed(st.db, st.Of(step.a)).table
  {
  }

  lemma GoneWasDeleted(db: Db, t: Txn, s: Scope)
    requires s in db.table && s !in Committed(db, t).table
    ensures s in t.Dels()
  {
  }

  /** A newcomer is refused only while MAX_TRACKED rows have an open window, and is told
      exactly how long the first of these windows still lasts. */
  lemma RefusedOnlyWhenFull(st: State, a: Actor)
    requires Reachable(st) && Enabled(st, CountLive(a))
    requires Apply(st, CountLive(a)).Of(a).Full?
    ensures var t, live := st.Of(a), st.db.Live(st.Of(a).dels);
            && |live| >= MAX_TRACKED
            && (forall s :: s in live ==> !live[s].IsStale(t.now))
            && Apply(st, CountLive(a)).Of(a).decision.Refused?
            && var retry := Apply(st, CountLive(a)).Of(a).decision.retryAfter;
               && (forall s :: s in live ==> t.now + retry <= live[s].start + WINDOW)
               && (exists s :: s in live && t.now + retry == live[s].start + WINDOW)
  {
    ReachableInv(st);
    assert LocalOk(st.db, st.Of(a));
    var t, live := st.Of(a), st.db.Live(st.Of(a).dels);
    assert live != map[];
    var earliest := Earliest(live).value;
    var s :| s in live && live[s].start == earliest;
    assert !st.db.StaleRow(s, t.now);
    assert Since(earliest + WINDOW, t.now) == earliest + WINDOW - t.now;
    assert t.now + Since(earliest + WINDOW, t.now) == live[s].start + WINDOW;
  }
}
