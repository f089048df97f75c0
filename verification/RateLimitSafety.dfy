// The limiter's invariant over every interleaving: stored logs are the ends of full histories.

module LimiterSafety {
  import opened Prelude
  import opened SlidingWindow
  import opened LimiterProtocol

  function Ats(h: seq<Admission>): (ats: seq<nat>)
    ensures |ats| == |h|
    ensures forall i :: 0 <= i < |h| ==> ats[i] == h[i].at
  {
    seq(|h|, i requires 0 <= i < |h| => h[i].at)
  }

  /** One subject's admissions are decided one after the other. */
  ghost predicate InOrder(h: seq<Admission>) {
    && (forall i :: 0 <= i < |h| ==> h[i].at <= h[i].readAt)
    && (forall i, j :: 0 <= i < j < |h| ==> h[i].readAt <= h[j].at)
  }

  /** Of `limit + 1` consecutive admissions, the last one's row is read at least one window
      after the first one's recorded instant; if it found a row, it was recorded as late too. */
  ghost predicate Spaced(h: seq<Admission>, rule: Rule) {
    forall i :: 0 <= i && i + rule.limit < |h| ==>
      && h[i].at + rule.window <= h[i + rule.limit].readAt
      && (h[i + rule.limit].found ==> h[i].at + rule.window <= h[i + rule.limit].at)
  }

  /** `log` is the end of `h`, and what it leaves out is out of the window at `horizon`. */
  ghost predicate Remembers(log: seq<nat>, h: seq<Admission>, window: nat, horizon: nat) {
    && EndOf(log, Ats(h))
    && (forall i :: 0 <= i < |h| - |log| ==> h[i].at + window <= horizon)
  }

  ghost predicate NotAfter(h: seq<Admission>, now: nat) {
    h == [] || h[|h| - 1].readAt <= now
  }

  /** What a subject's stored log and full history keep at any instant up to `clock`. */
  ghost predicate LogOk(log: seq<nat>, h: seq<Admission>, rule: Rule, clock: nat) {
    && InOrder(h)
    && Spaced(h, rule)
    && NotAfter(h, clock)
    && Remembers(log, h, rule.window, clock)
  }

  ghost predicate SubjectOk(db: Db, s: Subject) {
    && LogOk(db.LogOf(s), db.HistoryOf(s), s.Rule(), db.clock)
    && (s in db.rows ==> db.rows[s] != [])
  }

  /** An admission that has read its row. */
  ghost predicate LoadedOk(db: Db, s: Subject, now: nat, readAt: nat, before: seq<nat>) {
    && now <= readAt <= db.clock
    && NotAfter(db.HistoryOf(s), now)
    && Remembers(before, db.HistoryOf(s), s.Rule().window, readAt)
    && (before != [] ==> Remembers(before, db.HistoryOf(s), s.Rule().window, now))
    && (s in db.rows ==> db.rows[s] == before)
  }

  ghost predicate DelsOk(db: Db, now: nat, dels: set<Subject>) {
    now <= db.clock &&
    forall s :: s in dels ==> s in db.rows && SqlForgets(db.rows[s], s.Rule().window, now)
  }

  ghost predicate LocalOk(db: Db, t: Txn) {
    match t
    case Clocked(s, now) =>
      && now <= db.clock && NotAfter(db.HistoryOf(s), now)
      && (s in db.rows ==> Remembers(db.rows[s], db.HistoryOf(s), s.Rule().window, now))
    case Loaded(s, now, readAt, before) => LoadedOk(db, s, now, readAt, before)
    case Stored(s, now, readAt, before, dels) =>
      && LoadedOk(db, s, now, readAt, before) && DelsOk(db, now, dels) && s !in dels
      && forall d :: d in dels ==> d.kind == s.kind
    case Sweeping(now, dels) => DelsOk(db, now, dels)
    case _ => true
  }

  ghost predicate Compatible(t: Txn, u: Txn) {
    && (t.HoldsSubject() && u.HoldsSubject() ==> t.subject.lockKey != u.subject.lockKey)
    && (forall s :: !(t.LocksRow(s) && u.LocksRow(s)))
  }

  ghost predicate PairsOk(st: State) {
    forall a, b :: a != b ==> Compatible(st.Of(a), st.Of(b))
  }

  ghost predicate Inv(st: State) {
    && (forall s :: SubjectOk(st.db, s))
    && (forall a :: LocalOk(st.db, st.Of(a)))
    && PairsOk(st)
  }

  // ---- The decision against a history that never forgets ---------------------------------------

  lemma AtsSorted(h: seq<Admission>)
    requires InOrder(h)
    ensures Sorted(Ats(h))
  {
    forall i, j | 0 <= i < j < |h| ensures Ats(h)[i] <= Ats(h)[j] {
      assert h[i].at <= h[i].readAt <= h[j].at;
    }
  }

  /** How many admissions of a never-forgetting history are younger than the window. */
  function Younger(h: seq<Admission>, window: nat, now: nat): nat {
    |Inside(Ats(h), window, now)|
  }

  /** A remembered log never counts an admission the full history would not, and counts every
      one still in the window when its row was read. */
  lemma RememberedCount(log: seq<nat>, h: seq<Admission>, window: nat, now: nat, readAt: nat)
    requires InOrder(h)
    requires Remembers(log, h, window, readAt)
    requires now <= readAt
    ensures |Inside(log, window, now)| <= Younger(h, window, now)
    ensures Younger(h, window, readAt) <= |Inside(log, window, now)|
  {
    AtsSorted(h);
    EndCountsNoMore(log, Ats(h), window, now);
    EndCountsTheWindow(log, Ats(h), window, now, readAt);
  }

  // ---- Preservation ------------------------------------------------------------------------------

  lemma InitInv(clock: nat)
    ensures Inv(Init(clock))
  {
    var st := Init(clock);
    assert forall a :: st.Of(a) == Idle;
    assert forall s :: st.db.HistoryOf(s) == [] && st.db.LogOf(s) == [];
    assert Ats([]) == [];
  }

  lemma TickPreserves(st: State, elapsed: nat)
    requires Inv(st)
    ensures Inv(Apply(st, Tick(elapsed)))
  {
    var st' := Apply(st, Tick(elapsed));
    forall s ensures SubjectOk(st'.db, s) {
      assert SubjectOk(st.db, s);
      LogStaysOk(st.db.LogOf(s), st.db.HistoryOf(s), s.Rule(), st.db.clock, st'.db.clock);
    }
    forall a ensures LocalOk(st'.db, st'.Of(a)) && st'.Of(a) == st.Of(a) {
      assert LocalOk(st.db, st.Of(a));
    }
  }

  lemma LogStaysOk(log: seq<nat>, h: seq<Admission>, rule: Rule, clock: nat, later: nat)
    requires LogOk(log, h, rule, clock) && clock <= later
    ensures LogOk(log, h, rule, later)
  {
  }

  /** The store skips the write when the log is unchanged; an admission always changes it. */
  lemma AdmissionIsAlwaysStored(rule: Rule, log: seq<nat>, now: nat)
    requires rule.window > 0
    requires AdmitLog(rule, log, now).1
    ensures AdmitLog(rule, log, now).0 != log
  {
    var kept := Inside(log, rule.window, now);
    if kept + [now] == log {
      forall at | at in log ensures Since(now, at) < rule.window {
        InsideMember(log, rule.window, now, at);
        assert at in kept || at == now;
      }
      InsideAll(log, rule.window, now);
    }
  }

  /** An admission's DELETE never selects its own subject's row. */
  lemma OwnRowIsKept(db: Db, t: Txn)
    requires t.Stored? && LocalOk(db, t)
    ensures !Forgettable(db, t, t.subject)
  {
    var rule := t.subject.Rule();
    var kept := Inside(t.before, rule.window, t.now);
    var view := View(db, t, t.subject);
    if view != [] {
      var newest := MaxOf(view);
      InsideMember(t.before, rule.window, t.now, newest);
      if t.Changes() {
        assert newest in kept || newest == t.now;
      } else {
        assert view == t.before;
        if t.Admitted() { AdmissionIsAlwaysStored(rule, t.before, t.now); }
        assert newest in kept;
      }
    }
  }

  lemma MoveLocal(st: State, step: Step)
    requires Inv(st) && Enabled(st, step) && Moves(step)
    ensures LocalOk(st.db, Target(st.db, st.Of(step.a), step))
  {
    var db, t := st.db, st.Of(step.a);
    assert LocalOk(db, t);
    if t.HoldsSubject() {
      assert SubjectOk(db, t.subject);
    }
    if step.ForgetRow? {
      if t.Stored? { OwnRowIsKept(db, t); }
      assert View(db, t, step.row) == db.LogOf(step.row);
    }
  }

  lemma MoveCompatible(st: State, step: Step, b: Actor)
    requires Inv(st) && Enabled(st, step) && Moves(step)
    requires b != step.a
    ensures var t' := Target(st.db, st.Of(step.a), step);
            Compatible(t', st.Of(b)) && Compatible(st.Of(b), t')
  {
    var t, u := st.Of(step.a), st.Of(b);
    assert Compatible(t, u) && Compatible(u, t);
    var t' := Target(st.db, t, step);
    NewLocks(st.db, t, step);
    forall s ensures !(t'.LocksRow(s) && u.LocksRow(s)) {
      assert !(t.LocksRow(s) && u.LocksRow(s));
    }
  }

  /** The row locks a step adds. */
  lemma NewLocks(db: Db, t: Txn, step: Step)
    requires Moves(step)
    requires step.Store? ==> t.Loaded?
    ensures forall s :: Target(db, t, step).LocksRow(s) ==>
              || t.LocksRow(s)
              || (step.ForgetRow? && s == step.row)
              || (step.Store? && s == t.subject && t.Changes())
  {
  }

  lemma MovePreserves(st: State, step: Step)
    requires Inv(st) && Enabled(st, step) && Moves(step)
    ensures Inv(Apply(st, step))
  {
    var st' := Apply(st, step);
    MoveLocal(st, step);
    forall a ensures LocalOk(st'.db, st'.Of(a)) {
      assert LocalOk(st.db, st.Of(a));
    }
    forall a, b | a != b ensures Compatible(st'.Of(a), st'.Of(b)) {
      assert Compatible(st.Of(a), st.Of(b));
      if a == step.a {
        MoveCompatible(st, step, b);
      } else if b == step.a {
        MoveCompatible(st, step, a);
      }
    }
  }

  lemma ExtendInOrder(h: seq<Admission>, x: Admission)
    requires InOrder(h) && NotAfter(h, x.at) && x.at <= x.readAt
    ensures InOrder(h + [x])
  {
    forall i | 0 <= i < |h| ensures h[i].readAt <= x.at {
      assert i == |h| - 1 || (h[i].readAt <= h[|h| - 1].at <= h[|h| - 1].readAt);
    }
  }

  /** Fewer than `limit` admissions younger than the window: the `limit`-th last left it. */
  lemma FewYounger(h: seq<Admission>, rule: Rule, now: nat)
    requires InOrder(h) && 0 < rule.limit <= |h| && rule.window > 0
    ensures Younger(h, rule.window, now) < rule.limit
       <==> h[|h| - rule.limit].at + rule.window <= now
  {
    AtsSorted(h);
    InsideCount(Ats(h), rule.window, now, rule.limit);
  }

  lemma ExtendSpaced(h: seq<Admission>, rule: Rule, x: Admission)
    requires InOrder(h) && Spaced(h, rule) && rule.limit > 0 && rule.window > 0
    requires Younger(h, rule.window, x.readAt) < rule.limit
    requires x.found ==> Younger(h, rule.window, x.at) < rule.limit
    ensures Spaced(h + [x], rule)
  {
    var h' := h + [x];
    if |h| >= rule.limit {
      FewYounger(h, rule, x.readAt);
      if x.found { FewYounger(h, rule, x.at); }
    }
    forall i: int | 0 <= i && i + rule.limit < |h'|
      ensures h'[i].at + rule.window <= h'[i + rule.limit].readAt
      ensures h'[i + rule.limit].found ==> h'[i].at + rule.window <= h'[i + rule.limit].at
    {
      if i + rule.limit < |h| {
        assert h[i].at + rule.window <= h[i + rule.limit].readAt;
      }
    }
  }

  lemma TrimmedRemembers(h: seq<Admission>, before: seq<nat>, window: nat, now: nat, horizon: nat)
    requires InOrder(h) && now <= horizon && window > 0
    requires Remembers(before, h, window, horizon)
    ensures Remembers(Inside(before, window, now), h, window, horizon)
  {
    AtsSorted(h);
    TrimmedEnd(before, Ats(h), window, now);
    forall i | 0 <= i < |h| - |Inside(before, window, now)| ensures h[i].at + window <= horizon {
      assert Ats(h)[i] == h[i].at;
    }
  }

  // ---- Commits -----------------------------------------------------------------------------------

  lemma RememberOneMore(log: seq<nat>, h: seq<Admission>, window: nat, horizon: nat, x: Admission)
    requires Remembers(log, h, window, horizon)
    ensures Remembers(log + [x.at], h + [x], window, horizon)
  {
    assert Ats(h + [x]) == Ats(h) + [x.at];
  }

  /** What an admission writes: its subject's trimmed log, with the instant it was let in. */
  lemma OwnLog(db: Db, t: Txn)
    requires t.Stored? && LocalOk(db, t)
    ensures var db' := Committed(db, t);
            && (t.Admitted() ==> t.subject in db'.rows && db'.rows[t.subject] == t.Log())
            && (t.subject in db'.rows ==> db'.rows[t.subject] == t.Log() && t.Log() != [])
  {
    if t.Admitted() { AdmissionIsAlwaysStored(t.subject.Rule(), t.before, t.now); }
  }

  lemma OwnAdmission(h: seq<Admission>, rule: Rule, before: seq<nat>, now: nat, readAt: nat, clock: nat)
    requires rule.window > 0 && rule.limit > 0 && AdmitLog(rule, before, now).1
    requires InOrder(h) && Spaced(h, rule) && NotAfter(h, now) && now <= readAt <= clock
    requires Remembers(before, h, rule.window, readAt)
    requires before != [] ==> Remembers(before, h, rule.window, now)
    ensures LogOk(AdmitLog(rule, before, now).0, h + [Admission(now, readAt, before != [])], rule, clock)
  {
    var x := Admission(now, readAt, before != []);
    RememberedCount(before, h, rule.window, now, readAt);
    if before != [] { RememberedCount(before, h, rule.window, now, now); }
    ExtendInOrder(h, x);
    ExtendSpaced(h, rule, x);
    TrimmedRemembers(h, before, rule.window, now, readAt);
    RememberOneMore(Inside(before, rule.window, now), h, rule.window, readAt, x);
    assert LogOk(AdmitLog(rule, before, now).0, h + [x], rule, readAt);
    LogStaysOk(AdmitLog(rule, before, now).0, h + [x], rule, readAt, clock);
  }

  lemma OwnRefusal(h: seq<Admission>, rule: Rule, before: seq<nat>, now: nat, readAt: nat, clock: nat)
    requires rule.window > 0 && !AdmitLog(rule, before, now).1
    requires InOrder(h) && Spaced(h, rule) && NotAfter(h, now) && now <= readAt <= clock
    requires Remembers(before, h, rule.window, readAt)
    ensures LogOk(AdmitLog(rule, before, now).0, h, rule, clock)
  {
    TrimmedRemembers(h, before, rule.window, now, readAt);
    assert LogOk(AdmitLog(rule, before, now).0, h, rule, readAt);
    LogStaysOk(AdmitLog(rule, before, now).0, h, rule, readAt, clock);
  }

  lemma OwnCommit(db: Db, t: Txn)
    requires t.Stored? && LocalOk(db, t) && SubjectOk(db, t.subject)
    ensures SubjectOk(Committed(db, t), t.subject)
  {
    var rule, h := t.subject.Rule(), db.HistoryOf(t.subject);
    OwnLog(db, t);
    if t.Admitted() {
      OwnAdmission(h, rule, t.before, t.now, t.readAt, db.clock);
    } else {
      OwnRefusal(h, rule, t.before, t.now, t.readAt, db.clock);
    }
    // A row gone since it was read, and a refusal that changes nothing, leave no row.
    assert Committed(db, t).LogOf(t.subject) == t.Log()
        || (!t.Admitted() && Committed(db, t).LogOf(t.subject) == db.LogOf(t.subject));
  }

  /** What a commit leaves of another subject: its history, and its row unless it was deleted. */
  lemma OtherRow(db: Db, t: Txn, s: Subject)
    requires t.Stored? || t.Sweeping?
    requires t.Stored? ==> s != t.subject
    ensures var db' := Committed(db, t);
            && db'.clock == db.clock && db'.HistoryOf(s) == db.HistoryOf(s)
            && (s in db'.rows <==> s in db.rows && s !in t.dels)
            && db'.LogOf(s) == if s in t.dels then [] else db.LogOf(s)
  {
  }

  lemma OtherCommit(db: Db, t: Txn, s: Subject)
    requires SubjectOk(db, s)
    requires (t.Stored? || t.Sweeping?) && DelsOk(db, t.now, t.dels)
    requires t.Stored? ==> s != t.subject
    ensures SubjectOk(Committed(db, t), s)
  {
    OtherRow(db, t, s);
    if s in t.dels {
      DeletedRow(db, s, t.now);
    }
  }

  lemma DeletedRow(db: Db, s: Subject, now: nat)
    requires SubjectOk(db, s) && s in db.rows
    requires SqlForgets(db.rows[s], s.Rule().window, now) && now <= db.clock
    ensures Remembers([], db.HistoryOf(s), s.Rule().window, db.clock)
  {
    var h, log := db.HistoryOf(s), db.rows[s];
    forall i | 0 <= i < |h| ensures h[i].at + s.Rule().window <= db.clock {
      if i >= |h| - |log| {
        assert Ats(h)[i] == log[i - (|h| - |log|)];
        assert log[i - (|h| - |log|)] in log;
      }
    }
  }

  /** Nothing transaction `u` relies on differs between `db` and `db'`. */
  ghost predicate Unaffected(db: Db, db': Db, u: Txn) {
    && db'.clock == db.clock
    && (u.HoldsSubject() ==>
         && db'.HistoryOf(u.subject) == db.HistoryOf(u.subject)
         && (u.subject in db'.rows ==>
              u.subject in db.rows && db'.rows[u.subject] == db.rows[u.subject]))
    && (forall s :: s in u.Dels() && s in db.rows ==>
         s in db'.rows && db'.rows[s] == db.rows[s])
  }

  lemma UnaffectedLocal(db: Db, db': Db, u: Txn)
    requires Unaffected(db, db', u) && LocalOk(db, u)
    ensures LocalOk(db', u)
  {
  }

  lemma CommitUnaffected(db: Db, t: Txn, u: Txn)
    requires LocalOk(db, t) && LocalOk(db, u)
    requires Compatible(t, u)
    requires t.Stored? || t.Sweeping?
    ensures Unaffected(db, Committed(db, t), u)
  {
    forall s | s in u.Dels() ensures u.LocksRow(s) && !t.LocksRow(s) {}
    assert t.HoldsSubject() && u.HoldsSubject() ==> t.subject != u.subject;
    if t.Stored? {
      assert t.subject in u.Dels() ==> !t.Changes();
    }
  }

  lemma CommitLocal(st: State, a: Actor, b: Actor)
    requires Inv(st) && Enabled(st, Commit(a)) && b != a
    ensures LocalOk(Committed(st.db, st.Of(a)), st.Of(b))
  {
    var t, u := st.Of(a), st.Of(b);
    assert Compatible(t, u) && LocalOk(st.db, t) && LocalOk(st.db, u);
    CommitUnaffected(st.db, t, u);
    UnaffectedLocal(st.db, Committed(st.db, t), u);
  }

  lemma IdlePairs(st: State, a: Actor)
    requires PairsOk(st)
    ensures PairsOk(st.Put(a, Idle))
  {
    var st' := st.Put(a, Idle);
    forall b, c | b != c ensures Compatible(st'.Of(b), st'.Of(c)) {
      assert Compatible(st.Of(b), st.Of(c));
    }
  }

  lemma CommitPreserves(st: State, a: Actor)
    requires Inv(st) && Enabled(st, Commit(a))
    ensures Inv(Apply(st, Commit(a)))
  {
    var t := st.Of(a);
    var db' := Committed(st.db, t);
    var st' := Apply(st, Commit(a));
    assert LocalOk(st.db, t);
    forall s ensures SubjectOk(db', s) {
      assert SubjectOk(st.db, s);
      if t.Stored? && s == t.subject { OwnCommit(st.db, t); } else { OtherCommit(st.db, t, s); }
    }
    forall b ensures LocalOk(db', st'.Of(b)) {
      if b != a { CommitLocal(st, a, b); }
    }
    IdlePairs(st, a);
    assert forall b :: st'.Of(b) == st.Put(a, Idle).Of(b);
  }

  lemma StepPreserves(st: State, step: Step)
    requires Inv(st) && Enabled(st, step)
    ensures Inv(Apply(st, step))
  {
    match step
    case Tick(elapsed) => TickPreserves(st, elapsed);
    case Commit(a) => CommitPreserves(st, a);
    case _ => MovePreserves(st, step);
  }

  lemma {:induction false} RunsPreserve(st: State, steps: seq<Step>, end: State)
    requires Inv(st) && Runs(st, steps, end)
    ensures Inv(end)
    decreases |steps|
  {
    if steps != [] {
      StepPreserves(st, steps[0]);
      RunsPreserve(Apply(st, steps[0]), steps[1..], end);
    }
  }

  lemma ReachableInv(st: State)
    requires Reachable(st)
    ensures Inv(st)
  {
    var clock, steps :| RunsFrom(clock, steps, st);
    InitInv(clock);
    RunsPreserve(Init(clock), steps, st);
  }
}
