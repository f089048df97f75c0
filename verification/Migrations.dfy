// The boot check's diff of two migration histories, and the pass that applies what is pending.

module SchemaHistory {
  import opened Prelude

  /** A migration the binary was built with: how many statements its file runs as. */
  datatype Migration = Migration(version: int, checksum: seq<nat>, statements: nat)

  /** One row of the history table; `executionTime` is -1 until it is filled in. */
  datatype AppliedRow = AppliedRow(version: int, checksum: seq<nat>, success: bool, executionTime: int)

  datatype SchemaDrift = SchemaDrift(
    pending: seq<int>, failed: seq<int>, modified: seq<int>, unknown: seq<int>)
  {
    predicate IsCurrent() {
      pending == [] && failed == [] && modified == [] && unknown == []
    }
  }

  function FindRow(applied: seq<AppliedRow>, version: int): (row: Option<AppliedRow>)
    ensures row.Some? ==> row.value in applied && row.value.version == version
    ensures row.None? ==> forall r :: r in applied ==> r.version != version
  {
    if applied == [] then None
    else if applied[0].version == version then Some(applied[0])
    else FindRow(applied[1..], version)
  }

  predicate Knows(embedded: seq<Migration>, version: int) {
    exists m :: m in embedded && m.version == version
  }

  // ---- Sorting -----------------------------------------------------------------------------

  ghost predicate Ascending(s: seq<int>) {
    forall i, j :: 0 <= i < j < |s| ==> s[i] <= s[j]
  }

  function Inserted(x: int, s: seq<int>): seq<int> {
    if s == [] || x <= s[0] then [x] + s else [s[0]] + Inserted(x, s[1..])
  }

  /** What sorting the versions gives. */
  function SortedVersions(s: seq<int>): seq<int> {
    if s == [] then [] else Inserted(s[0], SortedVersions(s[1..]))
  }

  lemma {:induction false} InsertedMembers(x: int, s: seq<int>)
    ensures forall y :: y in Inserted(x, s) <==> y == x || y in s
  {
    if s != [] && x > s[0] {
      InsertedMembers(x, s[1..]);
      assert forall y :: y in s <==> y == s[0] || y in s[1..];
    }
  }

  lemma {:induction false} InsertedAscending(x: int, s: seq<int>)
    requires Ascending(s)
    ensures Ascending(Inserted(x, s))
  {
    if s != [] && x > s[0] {
      var rest := Inserted(x, s[1..]);
      InsertedAscending(x, s[1..]);
      InsertedMembers(x, s[1..]);
      forall j | 0 <= j < |rest| ensures s[0] <= rest[j] {
        assert rest[j] in rest;
      }
    }
  }

  lemma {:induction false} InsertedOnce(x: int, s: seq<int>)
    ensures multiset(Inserted(x, s)) == multiset{x} + multiset(s)
  {
    if s != [] && x > s[0] {
      InsertedOnce(x, s[1..]);
      assert s == [s[0]] + s[1..];
    }
  }

  /** Sorting orders the versions and neither adds nor loses an occurrence of one. */
  lemma {:induction false} SortedAscending(s: seq<int>)
    ensures Ascending(SortedVersions(s))
    ensures multiset(SortedVersions(s)) == multiset(s)
    ensures forall y :: y in SortedVersions(s) <==> y in s
  {
    if s != [] {
      SortedAscending(s[1..]);
      InsertedAscending(s[0], SortedVersions(s[1..]));
      InsertedMembers(s[0], SortedVersions(s[1..]));
      InsertedOnce(s[0], SortedVersions(s[1..]));
      assert s == [s[0]] + s[1..];
    }
  }

  // ---- The diff ----------------------------------------------------------------------------

  datatype Verdict = Pending | Failed | Modified | Unknown | Current

  /** What the history says of an embedded migration. */
  function OfMigration(m: Migration, applied: seq<AppliedRow>): Verdict {
    match FindRow(applied, m.version)
    case None => Pending
    case Some(row) =>
      if !row.success then Failed
      else if row.checksum != m.checksum then Modified
      else Current
  }

  /** What the binary says of a recorded row it does not embed; nothing of one it does. */
  function OfRow(row: AppliedRow, embedded: seq<Migration>): Verdict {
    if Knows(embedded, row.version) then Current
    else if row.success then Unknown
    else Failed
  }

  /** The versions of embedded migrations with that verdict, in order. */
  function Migrations(embedded: seq<Migration>, applied: seq<AppliedRow>, verdict: Verdict): seq<int> {
    if embedded == [] then []
    else
      var last := embedded[|embedded| - 1];
      Migrations(embedded[..|embedded| - 1], applied, verdict)
      + (if OfMigration(last, applied) == verdict then [last.version] else [])
  }

  function Rows(applied: seq<AppliedRow>, embedded: seq<Migration>, verdict: Verdict): seq<int> {
    if applied == [] then []
    else
      var last := applied[|applied| - 1];
      Rows(applied[..|applied| - 1], embedded, verdict)
      + (if OfRow(last, embedded) == verdict then [last.version] else [])
  }

  function Drift(embedded: seq<Migration>, applied: seq<AppliedRow>): SchemaDrift {
    SchemaDrift(
      SortedVersions(Migrations(embedded, applied, Pending)),
      SortedVersions(Migrations(embedded, applied, Failed) + Rows(applied, embedded, Failed)),
      SortedVersions(Migrations(embedded, applied, Modified)),
      SortedVersions(Rows(applied, embedded, Unknown)))
  }

  method ComputeDrift(embedded: seq<Migration>, applied: seq<AppliedRow>) returns (drift: SchemaDrift)
    ensures drift == Drift(embedded, applied)
  {
    var pending, failed, modified, unknown := [], [], [], [];
    for i := 0 to |embedded|
      invariant pending == Migrations(embedded[..i], applied, Pending)
      invariant failed == Migrations(embedded[..i], applied, Failed)
      invariant modified == Migrations(embedded[..i], applied, Modified)
    {
      assert embedded[..i + 1][..i] == embedded[..i];
      var m := embedded[i];
      var row := FindRow(applied, m.version);
      if row.None? {
        pending := pending + [m.version];
      } else if !row.value.success {
        failed := failed + [m.version];
      } else if row.value.checksum != m.checksum {
        modified := modified + [m.version];
      }
    }
    assert embedded[..|embedded|] == embedded;
    ghost var failedSoFar := failed;
    for i := 0 to |applied|
      invariant failed == failedSoFar + Rows(applied[..i], embedded, Failed)
      invariant unknown == Rows(applied[..i], embedded, Unknown)
    {
      assert applied[..i + 1][..i] == applied[..i];
      var row := applied[i];
      if !Knows(embedded, row.version) {
        if row.success {
          unknown := unknown + [row.version];
        } else {
          failed := failed + [row.version];
        }
      }
    }
    assert applied[..|applied|] == applied;
    drift := SchemaDrift(SortedVersions(pending), SortedVersions(failed),
                         SortedVersions(modified), SortedVersions(unknown));
  }

  // ---- What the diff says --------------------------------------------------------------------

  ghost predicate UniqueMigrations(embedded: seq<Migration>) {
    forall i, j :: 0 <= i < j < |embedded| ==> embedded[i].version != embedded[j].version
  }

  ghost predicate UniqueRows(applied: seq<AppliedRow>) {
    forall i, j :: 0 <= i < j < |applied| ==> applied[i].version != applied[j].version
  }

  lemma {:induction false} MigrationsExactly(embedded: seq<Migration>, applied: seq<AppliedRow>, verdict: Verdict)
    ensures forall v :: v in Migrations(embedded, applied, verdict) <==>
              exists m :: m in embedded && m.version == v && OfMigration(m, applied) == verdict
  {
    if embedded != [] {
      var rest, last := embedded[..|embedded| - 1], embedded[|embedded| - 1];
      MigrationsExactly(rest, applied, verdict);
      assert embedded == rest + [last];
      forall v ensures v in Migrations(embedded, applied, verdict) <==>
          exists m :: m in embedded && m.version == v && OfMigration(m, applied) == verdict
      {
        if v in Migrations(embedded, applied, verdict) && v in Migrations(rest, applied, verdict) {
          var m :| m in rest && m.version == v && OfMigration(m, applied) == verdict;
          assert m in embedded;
        }
      }
    }
  }

  lemma {:induction false} RowsExactly(applied: seq<AppliedRow>, embedded: seq<Migration>, verdict: Verdict)
    ensures forall v :: v in Rows(applied, embedded, verdict) <==>
              exists r :: r in applied && r.version == v && OfRow(r, embedded) == verdict
  {
    if applied != [] {
      var rest, last := applied[..|applied| - 1], applied[|applied| - 1];
      RowsExactly(rest, embedded, verdict);
      assert applied == rest + [last];
      forall v ensures v in Rows(applied, embedded, verdict) <==>
          exists r :: r in applied && r.version == v && OfRow(r, embedded) == verdict
      {
        if v in Rows(applied, embedded, verdict) && v in Rows(rest, embedded, verdict) {
          var r :| r in rest && r.version == v && OfRow(r, embedded) == verdict;
          assert r in applied;
        }
      }
    }
  }

  /** Which list a version is in, as a statement about the two histories. */
  ghost predicate IsPending(v: int, embedded: seq<Migration>, applied: seq<AppliedRow>) {
    Knows(embedded, v) && forall r :: r in applied ==> r.version != v
  }

  ghost predicate IsFailed(v: int, applied: seq<AppliedRow>) {
    exists r :: r in applied && r.version == v && !r.success
  }

  ghost predicate IsModified(v: int, embedded: seq<Migration>, applied: seq<AppliedRow>) {
    exists m, r :: m in embedded && r in applied && m.version == v && r.version == v
      && r.success && r.checksum != m.checksum
  }

  ghost predicate IsUnknown(v: int, embedded: seq<Migration>, applied: seq<AppliedRow>) {
    !Knows(embedded, v) && exists r :: r in applied && r.version == v && r.success
  }

  lemma RowIsFound(applied: seq<AppliedRow>, r: AppliedRow)
    requires UniqueRows(applied) && r in applied
    ensures FindRow(applied, r.version) == Some(r)
  {
    var found := FindRow(applied, r.version).value;
    var i :| 0 <= i < |applied| && applied[i] == found;
    var j :| 0 <= j < |applied| && applied[j] == r;
  }

  lemma MigrationIsUnique(embedded: seq<Migration>, m: Migration, m': Migration)
    requires UniqueMigrations(embedded) && m in embedded && m' in embedded
    requires m.version == m'.version
    ensures m == m'
  {
    var i :| 0 <= i < |embedded| && embedded[i] == m;
    var j :| 0 <= j < |embedded| && embedded[j] == m';
  }

  lemma FailedMembers(embedded: seq<Migration>, applied: seq<AppliedRow>, v: int)
    requires UniqueMigrations(embedded) && UniqueRows(applied)
    ensures v in Migrations(embedded, applied, Failed) + Rows(applied, embedded, Failed)
       <==> IsFailed(v, applied)
  {
    MigrationsExactly(embedded, applied, Failed);
    RowsExactly(applied, embedded, Failed);
    if IsFailed(v, applied) {
      var r :| r in applied && r.version == v && !r.success;
      RowIsFound(applied, r);
      if m :| m in embedded && m.version == v {
        assert OfMigration(m, applied) == Failed;
      } else {
        assert OfRow(r, embedded) == Failed;
      }
    }
  }

  lemma PendingMembers(embedded: seq<Migration>, applied: seq<AppliedRow>, v: int)
    ensures v in Migrations(embedded, applied, Pending) <==> IsPending(v, embedded, applied)
  {
    MigrationsExactly(embedded, applied, Pending);
  }

  lemma ModifiedMembers(embedded: seq<Migration>, applied: seq<AppliedRow>, v: int)
    requires UniqueMigrations(embedded) && UniqueRows(applied)
    ensures v in Migrations(embedded, applied, Modified) <==> IsModified(v, embedded, applied)
  {
    MigrationsExactly(embedded, applied, Modified);
    if IsModified(v, embedded, applied) {
      var m, r :| m in embedded && r in applied && m.version == v && r.version == v
        && r.success && r.checksum != m.checksum;
      RowIsFound(applied, r);
      assert OfMigration(m, applied) == Modified;
    }
    if v in Migrations(embedded, applied, Modified) {
      var m :| m in embedded && m.version == v && OfMigration(m, applied) == Modified;
      assert FindRow(applied, v).value in applied;
    }
  }

  lemma UnknownMembers(embedded: seq<Migration>, applied: seq<AppliedRow>, v: int)
    ensures v in Rows(applied, embedded, Unknown) <==> IsUnknown(v, embedded, applied)
  {
    RowsExactly(applied, embedded, Unknown);
  }

  /** For unique versions, each list holds exactly the versions that differ in its way. */
  lemma DriftExactly(embedded: seq<Migration>, applied: seq<AppliedRow>, v: int)
    requires UniqueMigrations(embedded) && UniqueRows(applied)
    ensures var drift := Drift(embedded, applied);
            && (v in drift.pending <==> IsPending(v, embedded, applied))
            && (v in drift.failed <==> IsFailed(v, applied))
            && (v in drift.modified <==> IsModified(v, embedded, applied))
            && (v in drift.unknown <==> IsUnknown(v, embedded, applied))
  {
    SortedAscending(Migrations(embedded, applied, Pending));
    SortedAscending(Migrations(embedded, applied, Failed) + Rows(applied, embedded, Failed));
    SortedAscending(Migrations(embedded, applied, Modified));
    SortedAscending(Rows(applied, embedded, Unknown));
    PendingMembers(embedded, applied, v);
    FailedMembers(embedded, applied, v);
    ModifiedMembers(embedded, applied, v);
    UnknownMembers(embedded, applied, v);
  }

  /** The lists are sorted, and no version is in two of them. */
  lemma DriftListsAreApart(embedded: seq<Migration>, applied: seq<AppliedRow>, v: int)
    requires UniqueMigrations(embedded) && UniqueRows(applied)
    ensures var d := Drift(embedded, applied);
            && Ascending(d.pending) && Ascending(d.failed) && Ascending(d.modified) && Ascending(d.unknown)
            && (v in d.pending ==> v !in d.failed && v !in d.modified && v !in d.unknown)
            && (v in d.failed ==> v !in d.modified && v !in d.unknown)
            && (v in d.modified ==> v !in d.unknown)
  {
    DriftExactly(embedded, applied, v);
    SortedAscending(Migrations(embedded, applied, Pending));
    SortedAscending(Migrations(embedded, applied, Failed) + Rows(applied, embedded, Failed));
    SortedAscending(Migrations(embedded, applied, Modified));
    SortedAscending(Rows(applied, embedded, Unknown));
    if IsFailed(v, applied) {
      var r :| r in applied && r.version == v && !r.success;
      forall r' | r' in applied && r'.version == v ensures r' == r {
        RowIsFound(applied, r);
        RowIsFound(applied, r');
      }
    }
  }

  ghost function EmbeddedMap(embedded: seq<Migration>): imap<int, seq<nat>> {
    imap v | Knows(embedded, v) :: (var m :| m in embedded && m.version == v; m.checksum)
  }

  ghost function RecordedMap(applied: seq<AppliedRow>): imap<int, seq<nat>> {
    imap v | FindRow(applied, v).Some? :: FindRow(applied, v).value.checksum
  }

  lemma EmptyHasNoMember(s: seq<int>)
    ensures s == [] <==> forall v :: v !in s
  {
    if s != [] {
      var v := s[0];
      assert v in s;
      assert exists w :: w in s;
    }
  }

  /** The schema is current exactly when the recorded versions and checksums are the embedded
      ones and every row succeeded. */
  lemma CurrentExactly(embedded: seq<Migration>, applied: seq<AppliedRow>)
    requires UniqueMigrations(embedded) && UniqueRows(applied)
    ensures Drift(embedded, applied).IsCurrent() <==>
            && RecordedMap(applied) == EmbeddedMap(embedded)
            && forall r :: r in applied ==> r.success
  {
    var d := Drift(embedded, applied);
    EmptyHasNoMember(d.pending);
    EmptyHasNoMember(d.failed);
    EmptyHasNoMember(d.modified);
    EmptyHasNoMember(d.unknown);
    forall v ensures (v !in d.pending && v !in d.failed && v !in d.modified && v !in d.unknown) <==>
        CurrentAt(embedded, applied, v)
    {
      CurrentPointwise(embedded, applied, v);
    }
    if forall v :: CurrentAt(embedded, applied, v) {
      forall v ensures v in RecordedMap(applied) <==> v in EmbeddedMap(embedded) {
        assert CurrentAt(embedded, applied, v);
      }
      forall v | v in EmbeddedMap(embedded) ensures RecordedMap(applied)[v] == EmbeddedMap(embedded)[v] {
        assert CurrentAt(embedded, applied, v);
      }
      forall r | r in applied ensures r.success {
        assert CurrentAt(embedded, applied, r.version);
        RowIsFound(applied, r);
      }
    }
    if RecordedMap(applied) == EmbeddedMap(embedded) && forall r :: r in applied ==> r.success {
      forall v ensures CurrentAt(embedded, applied, v) {
        assert v in RecordedMap(applied) <==> v in EmbeddedMap(embedded);
      }
    }
  }

  /** At one version: recorded, successfully and unchanged, exactly when embedded. */
  ghost predicate CurrentAt(embedded: seq<Migration>, applied: seq<AppliedRow>, v: int) {
    && (v in RecordedMap(applied) <==> v in EmbeddedMap(embedded))
    && (v in RecordedMap(applied) ==>
         FindRow(applied, v).value.success && RecordedMap(applied)[v] == EmbeddedMap(embedded)[v])
  }

  lemma CurrentPointwise(embedded: seq<Migration>, applied: seq<AppliedRow>, v: int)
    requires UniqueMigrations(embedded) && UniqueRows(applied)
    ensures var d := Drift(embedded, applied);
            (v !in d.pending && v !in d.failed && v !in d.modified && v !in d.unknown) <==>
            CurrentAt(embedded, applied, v)
  {
    DriftExactly(embedded, applied, v);
    forall r | r in applied && r.version == v ensures FindRow(applied, v) == Some(r) {
      RowIsFound(applied, r);
    }
    forall m | m in embedded && m.version == v ensures EmbeddedMap(embedded)[v] == m.checksum {
      var m' :| m' in embedded && m'.version == v && EmbeddedMap(embedded)[v] == m'.checksum;
      MigrationIsUnique(embedded, m, m');
    }
  }
}
