// The migration pass on one connection, with a crash or a failing statement possible between
// any two of its steps: a migration's statements and its history row are one transaction.

module MigrationPass {
  import opened Prelude
  import opened SchemaHistory

  /** One statement of a migration's file, once it took effect. */
  datatype Effect = Effect(version: int, statement: nat)

  /** Where the pass is; `next` indexes the embedded migrations. `written` and `row` are what the
      open transaction wrote, which only its commit makes part of the database. */
  datatype Conn =
    | Down
    | Between(next: nat)
    | InTransaction(next: nat, written: seq<Effect>)
    | RowWritten(next: nat, written: seq<Effect>, row: AppliedRow)
    | Committed(next: nat)

  /** What is committed: the statements that took effect, in order, and the history table. */
  datatype State = State(effects: seq<Effect>, rows: seq<AppliedRow>, conn: Conn)

  /** The first `n` statements of a version's file, each once, in order. */
  function Block(version: int, n: nat): seq<Effect> {
    seq(n, i requires 0 <= i < n => Effect(version, i))
  }

  function RowFor(m: Migration): AppliedRow {
    AppliedRow(m.version, m.checksum, true, -1)
  }

  /** The checks before anything is applied: no dirty row, no checksum that moved, no version
      the binary does not know. */
  ghost predicate Accepted(embedded: seq<Migration>, rows: seq<AppliedRow>) {
    forall i :: 0 <= i < |rows| ==> rows[i].success && Embeds(embedded, rows[i].version, rows[i].checksum)
  }

  ghost predicate Embeds(embedded: seq<Migration>, version: int, checksum: seq<nat>) {
    exists m :: m in embedded && m.version == version && m.checksum == checksum
  }

  /** Fills in a row's execution time. */
  function Timed(rows: seq<AppliedRow>, version: int, nanos: nat): seq<AppliedRow> {
    seq(|rows|, i requires 0 <= i < |rows| =>
      if rows[i].version == version then rows[i].(executionTime := nanos) else rows[i])
  }

  datatype Step =
    | StartPass
    | Skip
    | Begin
    | Execute
    | WriteRow
    | Commit
    | SetTime(nanos: nat)
    | Crash

  ghost predicate Enabled(embedded: seq<Migration>, st: State, step: Step) {
    match step
    case StartPass => st.conn.Down? && Accepted(embedded, st.rows)
    case Skip =>
      st.conn.Between? && st.conn.next < |embedded|
      && FindRow(st.rows, embedded[st.conn.next].version).Some?
    case Begin =>
      st.conn.Between? && st.conn.next < |embedded|
      && FindRow(st.rows, embedded[st.conn.next].version).None?
    case Execute =>
      st.conn.InTransaction? && st.conn.next < |embedded|
      && |st.conn.written| < embedded[st.conn.next].statements
    case WriteRow =>
      st.conn.InTransaction? && st.conn.next < |embedded|
      && |st.conn.written| == embedded[st.conn.next].statements
    case Commit => st.conn.RowWritten? && st.conn.next < |embedded|
    case SetTime(_) => st.conn.Committed? && st.conn.next < |embedded|
    case Crash => true
  }

  ghost function Apply(embedded: seq<Migration>, st: State, step: Step): State
    requires Enabled(embedded, st, step)
  {
    match step
    case StartPass => st.(conn := Between(0))
    case Skip => st.(conn := Between(st.conn.next + 1))
    case Begin => st.(conn := InTransaction(st.conn.next, []))
    case Execute =>
      var done := |st.conn.written|;
      st.(conn := InTransaction(st.conn.next,
                                st.conn.written + [Effect(embedded[st.conn.next].version, done)]))
    case WriteRow =>
      st.(conn := RowWritten(st.conn.next, st.conn.written, RowFor(embedded[st.conn.next])))
    case Commit =>
      State(st.effects + st.conn.written, st.rows + [st.conn.row], Committed(st.conn.next))
    case SetTime(nanos) =>
      State(st.effects, Timed(st.rows, embedded[st.conn.next].version, nanos), Between(st.conn.next + 1))
    case Crash => st.(conn := Down)
  }

  /** The pass went through every migration. */
  predicate Finished(embedded: seq<Migration>, st: State) {
    st.conn == Between(|embedded|)
  }

  ghost predicate Runs(embedded: seq<Migration>, st: State, steps: seq<Step>, end: State)
    decreases |steps|
  {
    if steps == [] then st == end
    else
      && Enabled(embedded, st, steps[0])
      && Runs(embedded, Apply(embedded, st, steps[0]), steps[1..], end)
  }

  // ---- The invariant -------------------------------------------------------------------------

  function StatementsOf(embedded: seq<Migration>, version: int): nat {
    if embedded == [] then 0
    else if embedded[0].version == version then embedded[0].statements
    else StatementsOf(embedded[1..], version)
  }

  /** The effects of the recorded migrations, whole, in the order of their rows. */
  function EffectsOfRows(embedded: seq<Migration>, rows: seq<AppliedRow>): seq<Effect> {
    if rows == [] then []
    else
      var last := rows[|rows| - 1];
      EffectsOfRows(embedded, rows[..|rows| - 1])
      + Block(last.version, StatementsOf(embedded, last.version))
  }

  /** A history the binary knows, and nothing in effect but what it records. */
  ghost predicate Known(embedded: seq<Migration>, effects: seq<Effect>, rows: seq<AppliedRow>) {
    && UniqueMigrations(embedded) && UniqueRows(rows)
    && Accepted(embedded, rows)
    && effects == EffectsOfRows(embedded, rows)
  }

  ghost predicate RecordedUpTo(embedded: seq<Migration>, rows: seq<AppliedRow>, n: nat) {
    n <= |embedded| && forall i :: 0 <= i < n ==> FindRow(rows, embedded[i].version).Some?
  }

  ghost predicate ConnOk(embedded: seq<Migration>, rows: seq<AppliedRow>, conn: Conn) {
    match conn
    case Down => true
    case Between(next) => RecordedUpTo(embedded, rows, next)
    case InTransaction(next, written) =>
      && next < |embedded| && RecordedUpTo(embedded, rows, next)
      && FindRow(rows, embedded[next].version).None?
      && |written| <= embedded[next].statements
      && written == Block(embedded[next].version, |written|)
    case RowWritten(next, written, row) =>
      && next < |embedded| && RecordedUpTo(embedded, rows, next)
      && FindRow(rows, embedded[next].version).None?
      && written == Block(embedded[next].version, embedded[next].statements)
      && row == RowFor(embedded[next])
    case Committed(next) => next < |embedded| && RecordedUpTo(embedded, rows, next + 1)
  }

  ghost predicate Inv(embedded: seq<Migration>, st: State) {
    Known(embedded, st.effects, st.rows) && ConnOk(embedded, st.rows, st.conn)
  }

  /** A start: a database never migrated, or one the binary knows, and no pass under way. */
  ghost predicate Start(embedded: seq<Migration>, st: State) {
    Known(embedded, st.effects, st.rows) && st.conn == Down
  }

  ghost predicate Reachable(embedded: seq<Migration>, st: State) {
    exists start, steps :: Start(embedded, start) && Runs(embedded, start, steps, st)
  }

  lemma {:induction false} StatementsOfMigration(embedded: seq<Migration>, m: Migration)
    requires UniqueMigrations(embedded) && m in embedded
    ensures StatementsOf(embedded, m.version) == m.statements
  {
    if embedded[0].version == m.version {
      MigrationIsUnique(embedded, embedded[0], m);
    } else {
      assert m in embedded[1..];
      StatementsOfMigration(embedded[1..], m);
    }
  }

  lemma {:induction false} FindRowAppend(rows: seq<AppliedRow>, row: AppliedRow, version: int)
    ensures FindRow(rows + [row], version) ==
            if FindRow(rows, version).Some? then FindRow(rows, version)
            else if row.version == version then Some(row) else None
  {
    if rows != [] {
      assert (rows + [row])[1..] == rows[1..] + [row];
      FindRowAppend(rows[1..], row, version);
    }
  }

  lemma {:induction false} FindRowTimed(rows: seq<AppliedRow>, at: int, nanos: nat, version: int)
    ensures FindRow(Timed(rows, at, nanos), version).Some? <==> FindRow(rows, version).Some?
  {
    if rows != [] {
      assert Timed(rows, at, nanos)[1..] == Timed(rows[1..], at, nanos);
      FindRowTimed(rows[1..], at, nanos, version);
    }
  }

  lemma {:induction false} EffectsTimed(embedded: seq<Migration>, rows: seq<AppliedRow>, at: int, nanos: nat)
    ensures EffectsOfRows(embedded, Timed(rows, at, nanos)) == EffectsOfRows(embedded, rows)
  {
    if rows != [] {
      var n := |rows| - 1;
      assert Timed(rows, at, nanos)[..n] == Timed(rows[..n], at, nanos);
      EffectsTimed(embedded, rows[..n], at, nanos);
    }
  }

  lemma AppendKnown(embedded: seq<Migration>, rows: seq<AppliedRow>, m: Migration)
    requires UniqueRows(rows) && Accepted(embedded, rows) && m in embedded
    requires FindRow(rows, m.version).None?
    ensures UniqueRows(rows + [RowFor(m)]) && Accepted(embedded, rows + [RowFor(m)])
  {
    forall i | 0 <= i < |rows| ensures rows[i].version != m.version {
      assert rows[i] in rows;
    }
  }

  lemma AppendEffects(embedded: seq<Migration>, rows: seq<AppliedRow>, m: Migration)
    requires UniqueMigrations(embedded) && m in embedded
    ensures EffectsOfRows(embedded, rows + [RowFor(m)]) ==
            EffectsOfRows(embedded, rows) + Block(m.version, m.statements)
  {
    assert (rows + [RowFor(m)])[..|rows|] == rows;
    StatementsOfMigration(embedded, m);
  }

  lemma CommitKnown(embedded: seq<Migration>, effects: seq<Effect>, rows: seq<AppliedRow>, m: Migration)
    requires Known(embedded, effects, rows) && m in embedded && FindRow(rows, m.version).None?
    ensures Known(embedded, effects + Block(m.version, m.statements), rows + [RowFor(m)])
  {
    AppendKnown(embedded, rows, m);
    AppendEffects(embedded, rows, m);
  }

  lemma RecordedAppend(embedded: seq<Migration>, rows: seq<AppliedRow>, n: nat)
    requires n < |embedded| && RecordedUpTo(embedded, rows, n)
    ensures RecordedUpTo(embedded, rows + [RowFor(embedded[n])], n + 1)
  {
    forall i | 0 <= i < n + 1
      ensures FindRow(rows + [RowFor(embedded[n])], embedded[i].version).Some?
    {
      FindRowAppend(rows, RowFor(embedded[n]), embedded[i].version);
    }
  }

  lemma RecordedTimed(embedded: seq<Migration>, rows: seq<AppliedRow>, n: nat, version: int, nanos: nat)
    requires RecordedUpTo(embedded, rows, n)
    ensures RecordedUpTo(embedded, Timed(rows, version, nanos), n)
  {
    forall i | 0 <= i < n ensures FindRow(Timed(rows, version, nanos), embedded[i].version).Some? {
      FindRowTimed(rows, version, nanos, embedded[i].version);
    }
  }

  lemma TimedRows(embedded: seq<Migration>, rows: seq<AppliedRow>, version: int, nanos: nat)
    requires UniqueRows(rows) && Accepted(embedded, rows)
    ensures UniqueRows(Timed(rows, version, nanos)) && Accepted(embedded, Timed(rows, version, nanos))
  {
    var timed := Timed(rows, version, nanos);
    assert |timed| == |rows|;
    forall i | 0 <= i < |timed|
      ensures timed[i].version == rows[i].version
      ensures timed[i].checksum == rows[i].checksum && timed[i].success == rows[i].success
    {
    }
  }

  lemma TimedKnown(embedded: seq<Migration>, effects: seq<Effect>, rows: seq<AppliedRow>, version: int, nanos: nat)
    requires Known(embedded, effects, rows)
    ensures Known(embedded, effects, Timed(rows, version, nanos))
  {
    TimedRows(embedded, rows, version, nanos);
    EffectsTimed(embedded, rows, version, nanos);
  }

  lemma OneMoreStatement(version: int, done: nat)
    ensures Block(version, done + 1) == Block(version, done) + [Effect(version, done)]
  {
  }

  lemma StepPreserves(embedded: seq<Migration>, st: State, step: Step)
    requires Inv(embedded, st) && Enabled(embedded, st, step)
    ensures Inv(embedded, Apply(embedded, st, step))
  {
    match step
    case Commit =>
      CommitKnown(embedded, st.effects, st.rows, embedded[st.conn.next]);
      RecordedAppend(embedded, st.rows, st.conn.next);
    case Execute =>
      var done := |st.conn.written|;
      OneMoreStatement(embedded[st.conn.next].version, done);
    case SetTime(nanos) =>
      var next, version := st.conn.next, embedded[st.conn.next].version;
      TimedKnown(embedded, st.effects, st.rows, version, nanos);
      RecordedTimed(embedded, st.rows, next + 1, version, nanos);
    case _ =>
  }

  lemma {:induction false} RunsPreserve(embedded: seq<Migration>, st: State, steps: seq<Step>, end: State)
    requires Inv(embedded, st) && Runs(embedded, st, steps, end)
    ensures Inv(embedded, end)
    decreases |steps|
  {
    if steps != [] {
      StepPreserves(embedded, st, steps[0]);
      RunsPreserve(embedded, Apply(embedded, st, steps[0]), steps[1..], end);
    }
  }

  lemma ReachableInv(embedded: seq<Migration>, st: State)
    requires Reachable(embedded, st)
    ensures Inv(embedded, st)
  {
    var start, steps :| Start(embedded, start) && Runs(embedded, start, steps, st);
    RunsPreserve(embedded, start, steps, st);
  }

  // ---- Main results ----------------------------------------------------------------------------

  lemma {:induction false} EffectsCounted(embedded: seq<Migration>, rows: seq<AppliedRow>, e: Effect)
    requires UniqueRows(rows)
    ensures multiset(EffectsOfRows(embedded, rows))[e] ==
            if FindRow(rows, e.version).Some? && e.statement < StatementsOf(embedded, e.version)
            then 1 else 0
  {
    if rows != [] {
      var before, last := rows[..|rows| - 1], rows[|rows| - 1];
      assert rows == before + [last];
      EffectsCounted(embedded, before, e);
      FindRowAppend(before, last, e.version);
      BlockCounted(last.version, StatementsOf(embedded, last.version), e);
    }
  }

  lemma {:induction false} BlockCounted(version: int, n: nat, e: Effect)
    ensures multiset(Block(version, n))[e] ==
            if e.version == version && e.statement < n then 1 else 0
  {
    if n > 0 {
      BlockCounted(version, n - 1, e);
      assert Block(version, n) == Block(version, n - 1) + [Effect(version, n - 1)];
    }
  }

  /** In every run, a migration's statements have all taken effect, once each, when its row is
      recorded, and none has when it is not. */
  lemma EffectsMatchHistory(embedded: seq<Migration>, st: State, m: Migration, statement: nat)
    requires Reachable(embedded, st) && m in embedded
    ensures multiset(st.effects)[Effect(m.version, statement)] ==
            if FindRow(st.rows, m.version).Some? && statement < m.statements then 1 else 0
  {
    ReachableInv(embedded, st);
    StatementsOfMigration(embedded, m);
    EffectsCounted(embedded, st.rows, Effect(m.version, statement));
  }

  /** Wherever a pass stopped, the drift is at most pending migrations, exactly those without a
      row; and the next pass is not refused. */
  lemma StoppedLeavesOnlyPending(embedded: seq<Migration>, st: State, v: int)
    requires Reachable(embedded, st)
    ensures var d := Drift(embedded, st.rows);
            && d.failed == [] && d.modified == [] && d.unknown == []
            && (v in d.pending <==> Knows(embedded, v) && FindRow(st.rows, v).None?)
    ensures st.conn.Down? ==> Enabled(embedded, st, StartPass)
  {
    ReachableInv(embedded, st);
    var d := Drift(embedded, st.rows);
    DriftExactly(embedded, st.rows, v);
    forall w ensures w !in d.failed && w !in d.modified && w !in d.unknown {
      DriftExactly(embedded, st.rows, w);
      if IsModified(w, embedded, st.rows) {
        var m, r :| m in embedded && r in st.rows && m.version == w && r.version == w
          && r.success && r.checksum != m.checksum;
        var m' :| m' in embedded && m'.version == r.version && m'.checksum == r.checksum;
        MigrationIsUnique(embedded, m, m');
      }
    }
    EmptyHasNoMember(d.failed);
    EmptyHasNoMember(d.modified);
    EmptyHasNoMember(d.unknown);
  }

  /** A pass that finishes, after any number of crashed ones, leaves no drift. */
  lemma FinishedIsCurrent(embedded: seq<Migration>, st: State)
    requires Reachable(embedded, st) && Finished(embedded, st)
    ensures Drift(embedded, st.rows).IsCurrent()
  {
    ReachableInv(embedded, st);
    var d := Drift(embedded, st.rows);
    forall v ensures v !in d.pending {
      StoppedLeavesOnlyPending(embedded, st, v);
      if Knows(embedded, v) {
        var m :| m in embedded && m.version == v;
        var i :| 0 <= i < |embedded| && embedded[i] == m;
        assert FindRow(st.rows, embedded[i].version).Some?;
      }
    }
    StoppedLeavesOnlyPending(embedded, st, 0);
    EmptyHasNoMember(d.pending);
  }

  /** With no pass under way one can start exactly when the diff lists nothing but pending
      migrations. */
  lemma StartsExactly(embedded: seq<Migration>, st: State)
    requires UniqueMigrations(embedded) && UniqueRows(st.rows)
    ensures var d := Drift(embedded, st.rows);
            Enabled(embedded, st, StartPass) <==>
            st.conn == Down && d.failed == [] && d.modified == [] && d.unknown == []
  {
    AcceptedExactly(embedded, st.rows);
  }

  lemma AcceptedExactly(embedded: seq<Migration>, rows: seq<AppliedRow>)
    requires UniqueMigrations(embedded) && UniqueRows(rows)
    ensures var d := Drift(embedded, rows);
            Accepted(embedded, rows) <==> d.failed == [] && d.modified == [] && d.unknown == []
  {
    var d := Drift(embedded, rows);
    EmptyHasNoMember(d.failed);
    EmptyHasNoMember(d.modified);
    EmptyHasNoMember(d.unknown);
    forall v ensures v in d.failed || v in d.modified || v in d.unknown <==>
        exists i :: 0 <= i < |rows| && rows[i].version == v && Rejected(embedded, rows[i])
    {
      RejectedExactly(embedded, rows, v);
    }
    forall i | 0 <= i < |rows|
      ensures Rejected(embedded, rows[i]) ==>
                rows[i].version in d.failed || rows[i].version in d.modified || rows[i].version in d.unknown
    {
    }
  }

  ghost predicate Rejected(embedded: seq<Migration>, row: AppliedRow) {
    !row.success || !Embeds(embedded, row.version, row.checksum)
  }

  lemma RejectedExactly(embedded: seq<Migration>, rows: seq<AppliedRow>, v: int)
    requires UniqueMigrations(embedded) && UniqueRows(rows)
    ensures var d := Drift(embedded, rows);
            v in d.failed || v in d.modified || v in d.unknown <==>
            exists i :: 0 <= i < |rows| && rows[i].version == v && Rejected(embedded, rows[i])
  {
    DriftExactly(embedded, rows, v);
    forall m, n | m in embedded && n in embedded && m.version == v && n.version == v ensures m == n {
      MigrationIsUnique(embedded, m, n);
    }
    forall r | r in rows && r.version == v
      ensures exists i :: 0 <= i < |rows| && rows[i] == r
    {
    }
  }

  /** The last statement of a migration writes how long it took into its own row, and nothing
      else; until then the row says -1. */
  lemma TimeIsFilledIn(embedded: seq<Migration>, st: State, nanos: nat, version: int)
    requires Inv(embedded, st) && Enabled(embedded, st, SetTime(nanos))
    ensures var st', own := Apply(embedded, st, SetTime(nanos)), embedded[st.conn.next].version;
            && st'.effects == st.effects
            && FindRow(st.rows, own).Some?
            && FindRow(st'.rows, own) == Some(FindRow(st.rows, own).value.(executionTime := nanos))
            && (version != own ==> FindRow(st'.rows, version) == FindRow(st.rows, version))
  {
    var own := embedded[st.conn.next].version;
    FindTimed(st.rows, own, nanos, own);
    FindTimed(st.rows, own, nanos, version);
  }

  lemma {:induction false} FindTimed(rows: seq<AppliedRow>, at: int, nanos: nat, version: int)
    ensures FindRow(Timed(rows, at, nanos), version) ==
            match FindRow(rows, version)
            case None => None
            case Some(row) => Some(if version == at then row.(executionTime := nanos) else row)
  {
    if rows != [] {
      assert Timed(rows, at, nanos)[1..] == Timed(rows[1..], at, nanos);
      FindTimed(rows[1..], at, nanos, version);
    }
  }

  // ---- A database this binary migrated alone ---------------------------------------------------

  /** The rows are the first migrations, in order. */
  ghost predicate InOrder(embedded: seq<Migration>, rows: seq<AppliedRow>) {
    |rows| <= |embedded| && forall i :: 0 <= i < |rows| ==> rows[i].version == embedded[i].version
  }

  /** All statements of the first `n` migrations, in order. */
  function InTurn(embedded: seq<Migration>, n: nat): seq<Effect>
    requires n <= |embedded|
  {
    if n == 0 then []
    else InTurn(embedded, n - 1) + Block(embedded[n - 1].version, embedded[n - 1].statements)
  }

  lemma FoundInOrder(embedded: seq<Migration>, rows: seq<AppliedRow>, n: nat)
    requires UniqueMigrations(embedded) && InOrder(embedded, rows) && n < |embedded|
    ensures FindRow(rows, embedded[n].version).Some? <==> n < |rows|
  {
    forall row | FindRow(rows, embedded[n].version) == Some(row) ensures n < |rows| {
      var i :| 0 <= i < |rows| && rows[i] == row;
      assert embedded[i].version == embedded[n].version;
    }
    forall i | i == n && i < |rows| ensures rows[i] in rows {
    }
  }

  /** The row a pass writes is the next one in order. */
  lemma NextInOrder(embedded: seq<Migration>, rows: seq<AppliedRow>, next: nat)
    requires UniqueMigrations(embedded) && InOrder(embedded, rows) && next < |embedded|
    requires RecordedUpTo(embedded, rows, next) && FindRow(rows, embedded[next].version).None?
    ensures |rows| == next
  {
    FoundInOrder(embedded, rows, next);
    if next > 0 {
      FoundInOrder(embedded, rows, next - 1);
    }
  }

  lemma TimedInOrder(embedded: seq<Migration>, rows: seq<AppliedRow>, version: int, nanos: nat)
    requires InOrder(embedded, rows)
    ensures InOrder(embedded, Timed(rows, version, nanos))
  {
  }

  lemma StepInOrder(embedded: seq<Migration>, st: State, step: Step)
    requires Inv(embedded, st) && InOrder(embedded, st.rows) && Enabled(embedded, st, step)
    ensures InOrder(embedded, Apply(embedded, st, step).rows)
  {
    if step.Commit? {
      NextInOrder(embedded, st.rows, st.conn.next);
    } else if step.SetTime? {
      TimedInOrder(embedded, st.rows, embedded[st.conn.next].version, step.nanos);
    }
  }

  lemma {:induction false} RunsInOrder(embedded: seq<Migration>, st: State, steps: seq<Step>, end: State)
    requires Inv(embedded, st) && InOrder(embedded, st.rows) && Runs(embedded, st, steps, end)
    ensures InOrder(embedded, end.rows)
    decreases |steps|
  {
    if steps != [] {
      StepPreserves(embedded, st, steps[0]);
      StepInOrder(embedded, st, steps[0]);
      RunsInOrder(embedded, Apply(embedded, st, steps[0]), steps[1..], end);
    }
  }

  lemma {:induction false} RowsInTurn(embedded: seq<Migration>, rows: seq<AppliedRow>)
    requires UniqueMigrations(embedded) && InOrder(embedded, rows)
    ensures EffectsOfRows(embedded, rows) == InTurn(embedded, |rows|)
  {
    if rows != [] {
      RowsInTurn(embedded, rows[..|rows| - 1]);
      StatementsOfMigration(embedded, embedded[|rows| - 1]);
    }
  }

  /** From a database never migrated, through any crashes and restarts: what took effect is a
      prefix of the migrations, whole and in order, and all of them once a pass finished. */
  lemma AppliedInTurn(embedded: seq<Migration>, steps: seq<Step>, st: State)
    requires UniqueMigrations(embedded) && Runs(embedded, State([], [], Down), steps, st)
    ensures |st.rows| <= |embedded|
    ensures st.effects == InTurn(embedded, |st.rows|)
    ensures Finished(embedded, st) ==> |st.rows| == |embedded|
  {
    RunsPreserve(embedded, State([], [], Down), steps, st);
    RunsInOrder(embedded, State([], [], Down), steps, st);
    RowsInTurn(embedded, st.rows);
    if Finished(embedded, st) && embedded != [] {
      FoundInOrder(embedded, st.rows, |embedded| - 1);
    }
  }

  // ---- A pass can always be brought to its end ---------------------------------------------------

  lemma {:induction false} Prepend(embedded: seq<Migration>, st: State, step: Step, rest: seq<Step>, end: State)
    requires Enabled(embedded, st, step) && Runs(embedded, Apply(embedded, st, step), rest, end)
    ensures Runs(embedded, st, [step] + rest, end)
  {
    assert ([step] + rest)[1..] == rest;
  }

  /** How far the pass is from its end: migrations left, then how far into one. */
  function Stage(conn: Conn): nat {
    match conn
    case Down => 0
    case Between(_) => 4
    case InTransaction(_, _) => 3
    case RowWritten(_, _, _) => 2
    case Committed(_) => 1
  }

  function MigrationsLeft(embedded: seq<Migration>, conn: Conn): int {
    if conn.Down? then |embedded| + 1 else |embedded| - conn.next
  }

  function StatementsLeft(embedded: seq<Migration>, conn: Conn): int {
    if conn.InTransaction? && conn.next < |embedded| then embedded[conn.next].statements - |conn.written| else 0
  }

  /** Wherever a run stopped, crashed or not, some continuation without a further crash finishes
      the pass: no state is stuck, and none needs repair. */
  lemma {:induction false} CanFinish(embedded: seq<Migration>, st: State)
    returns (steps: seq<Step>, end: State)
    requires Inv(embedded, st)
    ensures Runs(embedded, st, steps, end) && Finished(embedded, end)
    ensures Crash !in steps
    decreases MigrationsLeft(embedded, st.conn), Stage(st.conn), StatementsLeft(embedded, st.conn)
  {
    if Finished(embedded, st) {
      return [], st;
    }
    var step := NextStep(embedded, st);
    StepPreserves(embedded, st, step);
    var rest, last := CanFinish(embedded, Apply(embedded, st, step));
    Prepend(embedded, st, step, rest, last);
    return [step] + rest, last;
  }

  function NextStep(embedded: seq<Migration>, st: State): Step
    requires !st.conn.Down? ==> st.conn.next <= |embedded|
    requires st.conn.InTransaction? ==> st.conn.next < |embedded|
  {
    match st.conn
    case Down => StartPass
    case Between(next) =>
      if next < |embedded| && FindRow(st.rows, embedded[next].version).None? then Begin else Skip
    case InTransaction(next, written) =>
      if |written| < embedded[next].statements then Execute else WriteRow
    case RowWritten(_, _, _) => Commit
    case Committed(_) => SetTime(0)
  }
}
