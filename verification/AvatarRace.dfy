// Which age limits are safe: exactly those no upload takes longer than to commit. For any
// shorter one, a concrete run in which a pass reaps a committed photo, step by step.

module PhotoRace {
  import opened Prelude
  import opened Reconcile
  import opened PhotoProtocol
  import opened PhotoSafety

  lemma {:induction false} RunsThen(st: State, steps: seq<Step>, mid: State, step: Step)
    requires Runs(st, steps, mid) && Enabled(mid, step)
    ensures Runs(st, steps + [step], Apply(mid, step))
    decreases |steps|
  {
    if steps == [] {
      assert Runs(Apply(mid, step), [], Apply(mid, step));
      assert [step][1..] == [];
    } else {
      assert (steps + [step])[1..] == steps[1..] + [step];
      RunsThen(Apply(st, steps[0]), steps[1..], mid, step);
    }
  }

  lemma ReachableThen(st: State, step: Step) returns (end: State)
    requires Reachable(st) && Enabled(st, step)
    ensures end == Apply(st, step) && Reachable(end)
  {
    var clock, bound, steps :| RunsFrom(clock, bound, steps, st);
    RunsThen(Init(clock, bound), steps, st, step);
    end := Apply(st, step);
    assert RunsFrom(clock, bound, steps + [step], end);
  }

  const PHOTO: Key := Key(1, 0)
  const STORED: Txn := UploadStored(1, PHOTO, None, 0)

  /** The upload is transaction 1, the pass transaction 2; nothing else is under way. */
  ghost predicate At(st: State, db: Db, upload: Txn, pass: Txn) {
    && Reachable(st) && st.db == db
    && forall a :: st.Of(a) == if a == 1 then upload else if a == 2 then pass else Idle
  }

  lemma Moved(st: State, upload: Txn, pass: Txn, step: Step) returns (end: State)
    requires At(st, st.db, upload, pass) && Enabled(st, step)
    requires !step.Tick? && (step.a == 1 || step.a == 2)
    ensures var t := if step.a == 1 then upload else pass;
            At(end, Effect(st.db, t, step),
               if step.a == 1 then Target(st.db, t, step) else upload,
               if step.a == 2 then Target(st.db, t, step) else pass)
  {
    end := ReachableThen(st, step);
    assert forall a :: a != step.a ==> end.Of(a) == st.Of(a);
    assert end.Of(step.a) == Target(st.db, st.Of(step.a), step);
  }

  /** What the upload left at zero, at `clock`, when uploads may take `bound`. */
  function Written(clock: nat, bound: nat): Db {
    Db(clock, map[], map[PHOTO := 0], {PHOTO}, map[PHOTO := 0], {}, map[], {}, Some(bound))
  }

  /** An upload that wrote its object at zero and did not commit. */
  lemma SlowUpload(bound: nat) returns (st: State)
    ensures At(st, Written(0, bound), STORED, Idle)
  {
    st := Init(0, Some(bound));
    assert RunsFrom(0, Some(bound), [], st);
    assert At(st, st.db, Idle, Idle);
    st := Moved(st, Idle, Idle, BeginUpload(1, PHOTO));
    assert !st.UserLockedByOther(1, 1);
    st := Moved(st, Uploading(1, PHOTO), Idle, LockUser(1));
    st := Moved(st, UploadLocked(1, PHOTO, None), Idle, WriteKey(1));
    st := Moved(st, UploadKeyed(1, PHOTO, None), Idle, PutObject(1));
    assert st.db == Written(0, bound);
  }

  /** A pass starts past the age limit. */
  lemma PassBegins(bound: nat, minAge: nat) returns (st: State)
    ensures At(st, Written(minAge + 1, bound), STORED, Listing(minAge + 1, minAge, []))
  {
    var before := SlowUpload(bound);
    st := ReachableThen(before, Tick(minAge + 1));
    assert forall a :: st.Of(a) == before.Of(a);
    assert At(st, Written(minAge + 1, bound), STORED, Idle);
    st := Moved(st, STORED, Idle, BeginPass(2, minAge));
  }

  /** It lists the object. */
  lemma PassLists(bound: nat, minAge: nat) returns (st: State)
    ensures At(st, Written(minAge + 1, bound), STORED,
               Listing(minAge + 1, minAge, [Listed(StoredObject(PHOTO, Some(0)), false)]))
  {
    st := PassBegins(bound, minAge);
    var pass, step := Listing(minAge + 1, minAge, []), ListObject(2, PHOTO, true);
    var db := Written(minAge + 1, bound);
    assert Target(db, pass, step)
        == Listing(minAge + 1, minAge, [Listed(StoredObject(PHOTO, Some(0)), false)]);
    st := Moved(st, STORED, pass, step);
  }

  lemma PassDooms(bound: nat, minAge: nat) returns (st: State)
    ensures At(st, Written(minAge + 1, bound), STORED, Reaping(minAge, {PHOTO}, {}))
  {
    st := PassLists(bound, minAge);
    var o := StoredObject(PHOTO, Some(0));
    var pass := Listing(minAge + 1, minAge, [Listed(o, false)]);
    OnlyPhotoDoomed(st.db, pass, o);
    assert Protected(pass.listed) == {};
    st := Moved(st, STORED, pass, ReadKeys(2));
  }

  lemma OnlyPhotoDoomed(db: Db, pass: Txn, o: StoredObject)
    requires pass.Listing? && Objects(pass.listed) == [o] && o.modified.Some?
    requires !db.Named(o.key) && o.modified.value + pass.minAge < pass.now
    ensures Doomed(db, pass) == {o.key}
  {
    var known := set p | p in [o] && db.Named(p.key) :: p.key;
    var cutoff := pass.now - pass.minAge;
    OrphansExactly([o], known, cutoff);
    assert IsOrphan(o, known, cutoff);
    var orphans := Classified([o], known, cutoff).orphans;
    assert o in orphans && forall p :: p in orphans ==> p == o;
  }

  /** When uploads may take longer than a pass's age limit, the pass can reap the object of a
      committed key, committed one instant past the limit after the object was written: the row
      then names nothing, with no removal to blame. */
  lemma SlowUploadIsReaped(bound: nat, minAge: nat) returns (before: State, after: State)
    requires bound > minAge
    ensures Reachable(before) && before.db.bound == Some(bound)
    ensures Enabled(before, Reap(2, PHOTO)) && before.Of(2).minAge == minAge
    ensures before.db.Named(PHOTO) && before.db.written == map[PHOTO := 0] && before.db.clock == minAge + 1
    ensures after == Apply(before, Reap(2, PHOTO))
    ensures after.db.Named(PHOTO) && PHOTO !in after.db.bucket && PHOTO !in after.db.erased
  {
    before := PassDooms(bound, minAge);
    before := Moved(before, STORED, Reaping(minAge, {PHOTO}, {}), Commit(1));
    after := ReachableThen(before, Reap(2, PHOTO));
  }

  /** In a run where uploads commit within `bound`, a pass with that age limit reaps only what no
      committed row names then or in any later state. */
  ghost predicate ReapsOnlyTheDead(bound: nat, minAge: nat, st: State, a: Actor, k: Key) {
    Reachable(st) && st.db.bound == Some(bound)
    && Enabled(st, Reap(a, k)) && st.Of(a).minAge == minAge ==>
      forall steps, end :: Runs(st, steps, end) ==> !end.db.Named(k)
  }

  /** An age limit is safe exactly when uploads commit within it. */
  lemma SafeExactly(bound: nat, minAge: nat)
    ensures (forall st, a, k :: ReapsOnlyTheDead(bound, minAge, st, a, k)) <==> bound <= minAge
  {
    if bound <= minAge {
      forall st, a, k ensures ReapsOnlyTheDead(bound, minAge, st, a, k) {
        if Reachable(st) && st.db.bound == Some(bound) && Enabled(st, Reap(a, k)) && st.Of(a).minAge == minAge {
          forall steps, end | Runs(st, steps, end) ensures !end.db.Named(k) {
            PassReapsOnlyTheDead(st, a, k, steps, end);
          }
        }
      }
    } else {
      var before, after := SlowUploadIsReaped(bound, minAge);
      assert Runs(before, [], before);
      assert !ReapsOnlyTheDead(bound, minAge, before, 2, PHOTO);
    }
  }
}
