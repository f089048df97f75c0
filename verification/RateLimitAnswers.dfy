// What the limiter tells its callers and what it forgets, against a history that never forgets.

module LimiterAnswers {
  import opened Prelude
  import opened SlidingWindow
  import opened LimiterProtocol
  import opened LimiterSafety
  import opened LimiterBudgets

  /** The caller is let through exactly when the commit records an admission, at its clock reading;
      no other subject's admissions are touched. */
  lemma AnswerIsCounted(st: State, a: Actor)
    requires Reachable(st) && Enabled(st, Commit(a)) && st.Of(a).Stored?
    ensures var t, db, db' := st.Of(a), st.db, Apply(st, Commit(a)).db;
            && (if t.Admitted() then
                  && |db'.HistoryOf(t.subject)| == |db.HistoryOf(t.subject)| + 1
                  && db'.HistoryOf(t.subject)[..|db.HistoryOf(t.subject)|] == db.HistoryOf(t.subject)
                  && db'.HistoryOf(t.subject)[|db.HistoryOf(t.subject)|].at == t.now
                  && t.subject in db'.rows
                else db'.HistoryOf(t.subject) == db.HistoryOf(t.subject))
            && forall s :: s != t.subject ==> db'.HistoryOf(s) == db.HistoryOf(s)
  {
    ReachableInv(st);
    OwnLog(st.db, st.Of(a));
  }

  /** An admission forgets only other subjects of its own limit, all of whose admissions left that
      limit's window; the purge only such subjects of any limit. What was selected goes. */
  lemma OnlyTheForgottenGo(st: State, a: Actor, s: Subject)
    requires Reachable(st) && Enabled(st, Commit(a)) && s in st.db.rows
    ensures var t, db' := st.Of(a), Apply(st, Commit(a)).db;
            && (s in t.dels ==> s !in db'.rows)
            && (s !in db'.rows ==>
                 && s in t.dels && Forgets(st.db.rows[s], s.Rule().window, t.now)
                 && (t.Stored? ==> s.kind == t.subject.kind && s != t.subject))
            && (s in db'.rows && !(t.Stored? && s == t.subject) ==> db'.rows[s] == st.db.rows[s])
  {
    ReachableInv(st);
    var t := st.Of(a);
    assert LocalOk(st.db, t) && SubjectOk(st.db, s);
    SqlTestIsForgets(st.db.rows[s], s.Rule().window, t.now);
    if t.Stored? {
      EmptyOnlyAtZeroLimit(t.subject.Rule(), t.before, t.now);
    }
  }

  /** The limits shipped, with the one admission more an interleaving can add: ten recipe imports
      in ten minutes, fifteen Open Food Facts lookups in one, three notices in a day, twenty Google
      tokens in ten minutes. */
  lemma ShippedBudgets(st: State, s: Subject, from: nat)
    requires Reachable(st)
    ensures var ats := Ats(st.db.HistoryOf(s));
            && (s.kind == RecipeImport ==> CountIn(ats, from, from + 600_000_000) <= 11)
            && (s.kind == OpenFoodFacts ==> CountIn(ats, from, from + 60_000_000) <= 16)
            && (s.kind == AccountExistsNotice ==> CountIn(ats, from, from + 86_400_000_000) <= 4)
            && (s.kind == GoogleIdToken ==> CountIn(ats, from, from + 600_000_000) <= 21)
  {
    SlidingBudget(st, s, from);
    assert AtMost(st.db.HistoryOf(s), s.Rule().window, s.Rule().limit + 1, from);
  }

  /** The hourly purge starts with nothing deleted, at the instant it was given. */
  lemma SweepStarts(st: State, a: Actor, now: nat)
    requires Reachable(st) && Enabled(st, BeginSweep(a, now))
    ensures Apply(st, BeginSweep(a, now)).Of(a) == Sweeping(now, {})
  {
  }

  /** Each deletion of a DELETE adds one forgotten row to those it deleted. */
  lemma ForgettingDeletes(st: State, a: Actor, row: Subject)
    requires Reachable(st) && Enabled(st, ForgetRow(a, row))
    ensures var t, next := st.Of(a), Apply(st, ForgetRow(a, row)).Of(a);
            next == t.(dels := t.dels + {row}) && Forgets(st.db.LogOf(row), row.Rule().window, t.now)
  {
    ReachableInv(st);
    var t := st.Of(a);
    assert LocalOk(st.db, t);
    if t.Stored? { OwnRowIsKept(st.db, t); }
    assert View(st.db, t, row) == st.db.LogOf(row);
    SqlTestIsForgets(st.db.LogOf(row), row.Rule().window, t.now);
  }
}
