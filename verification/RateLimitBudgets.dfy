// What the limiter guarantees in every interleaving, against a store that never forgets.

module LimiterBudgets {
  import opened Prelude
  import opened SlidingWindow
  import opened LimiterProtocol
  import opened LimiterSafety

  /** The row reading finds a row exactly when one is stored. */
  lemma FoundIsStored(st: State, a: Actor)
    requires Reachable(st) && Enabled(st, ReadRow(a))
    ensures Apply(st, ReadRow(a)).Of(a).Loaded?
    ensures Apply(st, ReadRow(a)).Of(a).Found() <==> st.Of(a).subject in st.db.rows
  {
    ReachableInv(st);
    assert SubjectOk(st.db, st.Of(a).subject);
  }

  /** The limiter against a store that never forgets: it admits exactly when fewer than `limit`
      admissions are younger than the window at its clock reading, or it found no row. Nothing
      trimmed, reclaimed by others or purged changes this; and it never admits while `limit`
      admissions are still younger when its row is read. */
  lemma DecisionAgainstFullHistory(st: State, a: Actor)
    requires Reachable(st)
    requires st.Of(a).Loaded? || st.Of(a).Stored?
    ensures var t, h := st.Of(a), st.db.HistoryOf(st.Of(a).subject);
            var rule := t.subject.Rule();
            && (t.Admitted() <==> !t.Found() || Younger(h, rule.window, t.now) < rule.limit)
            && (t.Admitted() ==> Younger(h, rule.window, t.readAt) < rule.limit)
  {
    ReachableInv(st);
    var t := st.Of(a);
    var h, window := st.db.HistoryOf(t.subject), t.subject.Rule().window;
    assert LocalOk(st.db, t) && SubjectOk(st.db, t.subject);
    RememberedCount(t.before, h, window, t.now, t.readAt);
    if t.Found() { RememberedCount(t.before, h, window, t.now, t.now); }
  }

  /** In every run, among `limit + 1` consecutive admissions of a subject the last one's row
      is read at least one window after the first one's recorded instant. */
  lemma LastReadAWindowLater(st: State, s: Subject, i: nat)
    requires Reachable(st)
    requires i + s.Rule().limit < |st.db.HistoryOf(s)|
    ensures var h := st.db.HistoryOf(s);
            h[i].at + s.Rule().window <= h[i + s.Rule().limit].readAt
  {
    ReachableInv(st);
    assert SubjectOk(st.db, s);
  }

  lemma SpacedCount(h: seq<Admission>, rule: Rule, from: nat)
    requires InOrder(h) && Spaced(h, rule)
    ensures CountIn(Ats(h), from, from + rule.window) <= rule.limit + 1
  {
    AtsSorted(h);
    forall i: int | 0 <= i && i + (rule.limit + 1) < |h|
      ensures Ats(h)[i] + rule.window <= Ats(h)[i + (rule.limit + 1)]
    {
      assert h[i].at + rule.window <= h[i + rule.limit].readAt;
      assert h[i + rule.limit].readAt <= h[i + (rule.limit + 1)].at;
    }
    SparseCount(Ats(h), rule.limit + 1, from, rule.window);
  }

  /** The `i`-th admission found its row gone with `limit` admissions younger than the window. */
  ghost predicate Slipped(h: seq<Admission>, rule: Rule, i: nat) {
    i < |h| && !h[i].found && Younger(h[..i], rule.window, h[i].at) >= rule.limit
  }

  /** At most `most` recorded instants in the half-open interval of the window's length. */
  ghost predicate AtMost(h: seq<Admission>, window: nat, most: nat, from: nat) {
    CountIn(Ats(h), from, from + window) <= most
  }

  lemma {:induction false} CountStretch(instants: seq<nat>, from: nat, to: nat, low: nat, high: nat)
    requires low <= high <= |instants|
    requires forall i :: low <= i < high ==> from <= instants[i] < to
    ensures CountIn(instants, from, to) >= high - low
  {
    if low < high {
      var last := |instants| - 1;
      CountStretch(instants[..last], from, to, low, if high == |instants| then last else high);
    }
  }

  /** The slipped admission is recorded within a window of the `limit`-th before it. */
  lemma SlippedIsClose(h: seq<Admission>, rule: Rule, i: nat)
    requires InOrder(h) && rule.limit > 0 && rule.window > 0 && Slipped(h, rule, i)
    ensures rule.limit <= i && h[i].at < h[i - rule.limit].at + rule.window
  {
    InsideLength(Ats(h[..i]), rule.window, h[i].at);
    FewYounger(h[..i], rule, h[i].at);
  }

  lemma SlippedOverfills(h: seq<Admission>, rule: Rule, i: nat)
    requires InOrder(h) && rule.limit > 0 && rule.window > 0 && Slipped(h, rule, i)
    ensures exists from: nat :: !AtMost(h, rule.window, rule.limit, from)
  {
    SlippedIsClose(h, rule, i);
    var first := i - rule.limit;
    var from := h[first].at;
    AtsSorted(h);
    forall k | first <= k < i + 1 ensures from <= Ats(h)[k] < from + rule.window {
      assert Ats(h)[first] <= Ats(h)[k] <= Ats(h)[i];
    }
    CountStretch(Ats(h), from, from + rule.window, first, i + 1);
    assert !AtMost(h, rule.window, rule.limit, from);
  }

  lemma UnslippedFits(h: seq<Admission>, rule: Rule, from: nat)
    requires InOrder(h) && Spaced(h, rule) && rule.limit > 0 && rule.window > 0
    requires forall i: nat :: !Slipped(h, rule, i)
    ensures AtMost(h, rule.window, rule.limit, from)
  {
    AtsSorted(h);
    forall i: int | 0 <= i && i + rule.limit < |h|
      ensures Ats(h)[i] + rule.window <= Ats(h)[i + rule.limit]
    {
      var last := i + rule.limit;
      if !h[last].found {
        assert !Slipped(h, rule, last);
        FewYounger(h[..last], rule, h[last].at);
      }
    }
    SparseCount(Ats(h), rule.limit, from, rule.window);
  }

  /** In every run at most `limit + 1` recorded instants fall in any half-open interval one
      window long; and at most `limit` in every such interval exactly when no admission found its
      row gone with `limit` admissions still younger than the window. */
  lemma SlidingBudget(st: State, s: Subject, from: nat)
    requires Reachable(st)
    ensures var h, rule := st.db.HistoryOf(s), s.Rule();
            && AtMost(h, rule.window, rule.limit + 1, from)
            && ((forall start: nat :: AtMost(h, rule.window, rule.limit, start))
                <==> forall i: nat :: !Slipped(h, rule, i))
  {
    ReachableInv(st);
    assert SubjectOk(st.db, s);
    var h, rule := st.db.HistoryOf(s), s.Rule();
    SpacedCount(h, rule, from);
    if i: nat :| Slipped(h, rule, i) {
      SlippedOverfills(h, rule, i);
    } else {
      forall start: nat ensures AtMost(h, rule.window, rule.limit, start) {
        UnslippedFits(h, rule, start);
      }
    }
  }

  /** Stored rows are never empty, so the SQL test of the DELETE is the rule's own. */
  lemma StoredRowsForgetByTheRule(st: State, s: Subject, now: nat)
    requires Reachable(st) && s in st.db.rows
    ensures SqlForgets(st.db.rows[s], s.Rule().window, now)
       <==> Forgets(st.db.rows[s], s.Rule().window, now)
  {
    ReachableInv(st);
    assert SubjectOk(st.db, s);
    SqlTestIsForgets(st.db.rows[s], s.Rule().window, now);
  }
}
