// What the report limit tells its callers, against a history of admissions that never forgets.

module CspAnswers {
  import opened Prelude
  import opened CspEntry
  import opened CspProtocol
  import opened CspHistory
  import opened CspSafety
  import opened CspWaits

  /** The window the last admission was counted in is still open. */
  ghost predicate WindowOpen(h: seq<Admission>, now: nat) {
    h != [] && now < h[|h| - 1].start + WINDOW
  }

  /** ... and holds its whole budget already. */
  ghost predicate BudgetSpent(h: seq<Admission>, now: nat) {
    WindowOpen(h, now) && |h| >= MAX_REPORTS && h[|h| - MAX_REPORTS].start == h[|h| - 1].start
  }

  lemma RowDecides(row: Row, h: seq<Admission>, now: nat)
    requires GoodHistory(h) && RowMatches(row, h)
    ensures row.start == h[|h| - 1].start
    ensures row.IsStale(now) <==> !WindowOpen(h, now)
    ensures AdmitRow(row, now).1.Refused? <==> BudgetSpent(h, now)
  {
    assert h[|h| - 1].start == row.start;
    if |h| >= MAX_REPORTS {
      assert h[|h| - MAX_REPORTS].start == row.start <==> |h| - row.requests <= |h| - MAX_REPORTS;
    }
  }

  /** An address with a row is turned away at its row reading exactly when its open window holds
      MAX_REPORTS admissions, and is told exactly how long that window still lasts; otherwise it
      is on its way to be counted. One without a row is a newcomer. */
  lemma ReadingDecides(st: State, a: Actor)
    requires Reachable(st) && Enabled(st, ReadRow(a))
    ensures var t, next := st.Of(a), Apply(st, ReadRow(a)).Of(a);
            var h := st.db.HistoryOf(t.scope);
            && (t.scope !in st.db.table ==> next == AwaitTable(t.scope))
            && (t.scope in st.db.table ==>
                 if BudgetSpent(h, t.now) then
                   && next.Declined? && next.scope == t.scope && next.Answer().Refused?
                   && next.Answer().retryAfter > 0
                   && t.now + next.Answer().retryAfter == h[|h| - 1].start + WINDOW
                 else next.Decided? && next.scope == t.scope && next.now == t.now)
  {
    ReachableInv(st);
    var t := st.Of(a);
    assert LocalOk(st.db, t);
    assert ScopeOk(st.db.clock, st.db.RowOf(t.scope), st.db.HistoryOf(t.scope));
    if t.scope in st.db.table {
      var row := st.db.table[t.scope];
      RowDecides(row, st.db.HistoryOf(t.scope), t.now);
      UnchangedExactlyWhenRefused(row, t.now);
    }
  }

  /** The window an admission at `now` is counted in: the open one, or one it opens. */
  ghost function WindowAt(h: seq<Admission>, now: nat): nat {
    if WindowOpen(h, now) then h[|h| - 1].start else now
  }

  /** The caller is let through exactly when the commit counts its report, once, in its address's
      open window or in a new one; and no other address's reports are touched. */
  lemma AnswerIsCounted(st: State, a: Actor)
    requires Reachable(st) && Enabled(st, Commit(a)) && st.Of(a).IsAdmission()
    ensures var t, h := st.Of(a), st.db.HistoryOf(st.Of(a).scope);
            var h' := Apply(st, Commit(a)).db.HistoryOf(t.scope);
            if t.Answer().Allow? then
              (t.Wrote? || t.Inserted?) && h' == h + [Admission(t.now, WindowAt(h, t.now))]
            else h' == h
    ensures forall s :: s != st.Of(a).scope ==> Apply(st, Commit(a)).db.HistoryOf(s) == st.db.HistoryOf(s)
  {
    ReachableInv(st);
    var t := st.Of(a);
    assert LocalOk(st.db, t);
    assert ScopeOk(st.db.clock, st.db.RowOf(t.scope), st.db.HistoryOf(t.scope));
    if t.Wrote? {
      RowDecides(st.db.table[t.scope], st.db.HistoryOf(t.scope), t.now);
    }
  }

  /** A commit leaves every row but its own address's as it was, except those it deleted, which
      go. */
  lemma OtherRowsAreKept(st: State, a: Actor, s: Scope)
    requires Reachable(st) && Enabled(st, Commit(a))
    requires st.Of(a).IsAdmission() ==> s != st.Of(a).scope
    ensures Apply(st, Commit(a)).db.RowOf(s) == if s in st.Of(a).Dels() then None else st.db.RowOf(s)
  {
  }

  /** While the table has room a newcomer deletes nothing and is on its way to be counted. */
  lemma RoomLetsNewcomersIn(st: State, a: Actor)
    requires Reachable(st) && Enabled(st, CountRows(a))
    ensures var next := Apply(st, CountRows(a)).Of(a);
            && next.scope == st.Of(a).scope && next.Dels() == {}
            && if |st.db.table| < MAX_TRACKED then next.Ready? else next.Purging?
  {
  }

  /** Each statement is decided by the clock read under the lock it follows, and none but a commit
      ends an admission: whoever is not aborted is answered. */
  lemma StatementsGoOn(st: State, step: Step)
    requires Reachable(st) && Enabled(st, step) && GoesOn(step)
    requires st.Of(step.a).IsAdmission() && !step.Commit?
    ensures var t, next := st.Of(step.a), Apply(st, step).Of(step.a);
            && next.IsAdmission() && next.scope == t.scope
            && (step.ReadClock? || step.ReadTableClock? ==> next.now == st.db.clock)
            && (step.Update? ==> next.Wrote? || next.AwaitTable?)
            && (step.Update? ==> (next.Wrote? <==> t.scope in st.db.table))
  {
  }

  /** The hourly purge starts with nothing deleted, at the instant it was given. */
  lemma SweepStarts(st: State, a: Actor, now: nat)
    requires Reachable(st) && Enabled(st, BeginSweep(a, now))
    ensures Apply(st, BeginSweep(a, now)).Of(a) == Sweeping(now, {})
  {
  }

  /** A purge deletes one more row, over at the instant it purges by, and keeps those it deleted. */
  lemma PurgeDeletes(st: State, a: Actor, row: Scope)
    requires Reachable(st) && Enabled(st, PurgeRow(a, row))
    ensures var t, next := st.Of(a), Apply(st, PurgeRow(a, row)).Of(a);
            && row in st.db.table && st.db.table[row].start + WINDOW <= t.now
            && next == t.(dels := t.Dels() + {row})
  {
  }

  /** An admission's purge leaves no row behind whose window was over. */
  lemma PurgeIsComplete(st: State, a: Actor, s: Scope)
    requires Reachable(st) && Enabled(st, CountLive(a)) && s in st.db.Live(st.Of(a).dels)
    ensures st.Of(a).now < st.db.table[s].start + WINDOW
  {
    ReachableInv(st);
    assert LocalOk(st.db, st.Of(a));
    assert !st.db.StaleRow(s, st.Of(a).now);
  }
}
