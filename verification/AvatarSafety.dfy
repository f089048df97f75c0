// What the order of the steps guarantees: a pass never reaps an object a row names then or
// later, and a committed key names a stored object.

module PhotoSafety {
  import opened Prelude
  import opened Reconcile
  import opened PhotoProtocol

  ghost predicate RowOk(db: Db, row: UserRow, u: User) {
    row.avatar.Some? ==>
      var k := row.avatar.value;
      && k.user == u && !row.purged
      && k in db.chosen && k in db.written
      && (db.StoredOrTaken(k) || k in db.erased)
  }

  ghost predicate GlobalOk(db: Db) {
    && (forall u :: RowOk(db, db.RowOf(u), u))
    && (forall k :: k in db.bucket ==> k in db.written && db.bucket[k] == db.written[k])
    && (forall k :: k in db.written ==> k in db.chosen && db.written[k] <= db.clock)
    && (forall k :: k in db.erased ==> k in db.written && k !in db.bucket)
  }

  /** The transaction means to delete the object, so the key must be dead. A pass whose age limit
      is no bound on uploads answers only for the keys that were named when it listed them. */
  ghost predicate Claims(db: Db, t: Txn, k: Key) {
    || (t.Discarding? && t.unnamed == k)
    || (t.Reaping? && k in t.doomed && (db.Safe(t.minAge) || k in t.protected))
  }

  ghost predicate FreshUpload(db: Db, u: User, k: Key) {
    u == k.user && k in db.chosen && !db.Named(k) && k !in db.erased
  }

  ghost predicate ListedOk(db: Db, l: Listed) {
    && l.stored.key in db.written
    && (l.stored.modified.Some? ==> db.written[l.stored.key] == l.stored.modified.value)
  }

  /** What it means to delete is dead. */
  ghost predicate ClaimsOk(db: Db, t: Txn) {
    forall k :: Claims(db, t, k) ==> k in db.chosen && !db.Named(k)
  }

  /** What it knows of its user's row and of its object. */
  ghost predicate PlaceOk(db: Db, t: Txn) {
    match t
    case Uploading(u, k) => FreshUpload(db, u, k) && k !in db.written
    case UploadLocked(u, k, previous) =>
      FreshUpload(db, u, k) && k !in db.written && db.RowOf(u) == UserRow(previous, false)
    case UploadKeyed(u, k, previous) =>
      FreshUpload(db, u, k) && k !in db.written && db.RowOf(u) == UserRow(previous, false)
    case UploadStored(u, k, previous, putAt) =>
      && FreshUpload(db, u, k) && db.RowOf(u) == UserRow(previous, false)
      && k in db.written && db.written[k] == putAt
      && (db.StoredOrTaken(k) || db.Expired(putAt))
    case RemovalLocked(u, current) => db.RowOf(u).avatar == current
    case RemovalErased(u, k) => db.RowOf(u).avatar == Some(k) && k in db.erased
    case RemovalCleared(u, k) => db.RowOf(u).avatar == Some(k) && k in db.erased
    case PurgeLocked(u, current) => db.RowOf(u) == UserRow(current, false)
    case Listing(now, minAge, listed) =>
      && now <= db.clock
      && (forall l :: l in listed ==> ListedOk(db, l))
    case _ => true
  }

  ghost predicate LocalOk(db: Db, t: Txn) {
    ClaimsOk(db, t) && PlaceOk(db, t)
  }

  /** `u` may still commit the key. */
  ghost predicate MayCommit(db: Db, u: Txn, k: Key) {
    u.Pending(k) && !(u.UploadStored? && db.Expired(u.putAt))
  }

  ghost predicate Compatible(db: Db, t: Txn, u: Txn) {
    && (forall user :: !(t.Locks(user) && u.Locks(user)))
    && (forall k :: !(t.Pending(k) && u.Pending(k)))
    && (forall k :: Claims(db, t, k) ==> !MayCommit(db, u, k))
    && (t.Listing? ==> forall l :: l in t.listed && l.wasNamed ==> !u.Pending(l.stored.key))
  }

  ghost predicate Inv(st: State) {
    && GlobalOk(st.db)
    && (forall a :: LocalOk(st.db, st.Of(a)))
    && (forall a, b :: a != b ==> Compatible(st.db, st.Of(a), st.Of(b)))
  }

  lemma InitInv(clock: nat, bound: Option<nat>)
    ensures Inv(Init(clock, bound))
  {
    var st := Init(clock, bound);
    assert forall a :: st.Of(a) == Idle;
  }

  lemma TickPreserves(st: State, elapsed: nat)
    requires Inv(st)
    ensures Inv(Apply(st, Tick(elapsed)))
  {
    var st' := Apply(st, Tick(elapsed));
    forall u ensures RowOk(st'.db, st'.db.RowOf(u), u) {
      assert RowOk(st.db, st.db.RowOf(u), u);
    }
    forall a ensures LocalOk(st'.db, st'.Of(a)) && st'.Of(a) == st.Of(a) {
      assert LocalOk(st.db, st.Of(a));
    }
    forall a, b | a != b ensures Compatible(st'.db, st'.Of(a), st'.Of(b)) {
      var t, u := st.Of(a), st.Of(b);
      assert Compatible(st.db, t, u) && st'.Of(a) == t && st'.Of(b) == u;
      assert forall k :: Claims(st'.db, t, k) ==> Claims(st.db, t, k);
      assert forall k :: MayCommit(st'.db, u, k) ==> MayCommit(st.db, u, k);
    }
  }

  // ---- The transaction that steps ------------------------------------------------------------

  lemma DoomedExactly(db: Db, t: Txn, k: Key)
    requires t.Listing?
    requires k in Doomed(db, t)
    ensures !db.Named(k)
    ensures exists l :: l in t.listed && l.stored.key == k
              && l.stored.modified.Some? && l.stored.modified.value + t.minAge < t.now
  {
    var objects := Objects(t.listed);
    var known := set o | o in objects && db.Named(o.key) :: o.key;
    OrphansExactly(objects, known, t.now - t.minAge);
    var o :| o in Classified(objects, known, t.now - t.minAge).orphans && o.key == k;
    var i :| 0 <= i < |objects| && objects[i] == o;
    assert t.listed[i] in t.listed && t.listed[i].stored == o;
  }

  /** Whether the step's effect keeps what is shared well-formed. */
  lemma EffectGlobal(db: Db, t: Txn, step: Step)
    requires GlobalOk(db) && LocalOk(db, t) && !step.Tick?
    requires step.Commit? && t.UploadStored? ==> !db.Expired(t.putAt)
    requires step.Reap? && t.Reaping? ==> step.key in t.doomed
    ensures GlobalOk(Effect(db, t, step))
  {
    var db' := Effect(db, t, step);
    forall u ensures RowOk(db', db'.RowOf(u), u) {
      assert RowOk(db, db.RowOf(u), u);
    }
    if t.RemovalLocked? {
      assert RowOk(db, db.RowOf(t.user), t.user);
    }
    EffectErased(db, t, step);
  }

  /** What a removal erased was written once, and is not written again. */
  lemma EffectErased(db: Db, t: Txn, step: Step)
    requires PlaceOk(db, t) && !step.Tick?
    requires forall k :: k in db.erased ==> k in db.written && k !in db.bucket
    requires t.RemovalLocked? ==> RowOk(db, db.RowOf(t.user), t.user)
    ensures var db' := Effect(db, t, step);
            forall k :: k in db'.erased ==> k in db'.written && k !in db'.bucket
  {
  }

  /** A step that reads keys or commits claims only keys that no row names any more. */
  lemma StepClaims(db: Db, t: Txn, step: Step)
    requires LocalOk(db, t) && !step.Tick?
    requires t.UploadStored? || t.PurgeLocked? ==> RowOk(db, db.RowOf(t.user), t.user)
    requires forall k :: k in db.written ==> k in db.chosen
    requires step.BeginUpload? ==> step.key !in db.chosen
    ensures ClaimsOk(Effect(db, t, step), Target(db, t, step))
  {
    if step.ReadKeys? && t.Listing? {
      forall k | k in Doomed(db, t) && Claims(db, Reaping(t.minAge, Doomed(db, t), Protected(t.listed)), k)
        ensures k in db.chosen && !db.Named(k)
      {
        DoomedExactly(db, t, k);
      }
    }
  }

  lemma LockPlace(db: Db, t: Txn)
    requires PlaceOk(db, t) && (t.Uploading? || t.Removing? || t.Purging?)
    ensures PlaceOk(db, AfterLock(db, t))
  {
  }

  lemma StepPlace(db: Db, t: Txn, step: Step)
    requires PlaceOk(db, t) && !step.Tick?
    requires step.BeginUpload? ==>
               step.key !in db.chosen && RowOk(db, db.RowOf(step.key.user), step.key.user)
    requires forall k :: k in db.written ==> k in db.chosen
    requires forall k :: k in db.erased ==> k in db.written
    requires step.ListObject? ==>
               step.key in db.bucket && step.key in db.written && db.bucket[step.key] == db.written[step.key]
    ensures PlaceOk(Effect(db, t, step), Target(db, t, step))
  {
    if step.LockUser? && (t.Uploading? || t.Removing? || t.Purging?) {
      LockPlace(db, t);
    }
  }

  lemma StepLocal(st: State, step: Step)
    requires Inv(st) && Enabled(st, step) && !step.Tick?
    ensures LocalOk(Effect(st.db, st.Of(step.a), step), Target(st.db, st.Of(step.a), step))
  {
    var db, t := st.db, st.Of(step.a);
    assert LocalOk(db, t);
    if t.UploadStored? || t.PurgeLocked? {
      assert RowOk(db, db.RowOf(t.user), t.user);
    }
    StepClaims(db, t, step);
    if step.BeginUpload? {
      assert RowOk(db, db.RowOf(step.key.user), step.key.user);
    }
    StepPlace(db, t, step);
  }

  // ---- The other transactions ------------------------------------------------------------------

  /** Nothing transaction `u` relies on differs between `db` and `db'`. */
  ghost predicate Unaffected(db: Db, db': Db, u: Txn) {
    && db'.clock == db.clock && db'.bound == db.bound
    && db.chosen <= db'.chosen && db.erased <= db'.erased
    && (forall k :: k in db.written ==> k in db'.written && db'.written[k] == db.written[k])
    && (u.Uploads() ==>
         && (u.key in db'.written ==> u.key in db.written)
         && (u.key in db'.erased ==> u.key in db.erased)
         && (db'.Named(u.key) ==> db.Named(u.key)))
    && (u.HoldsRow() ==> db'.RowOf(u.user) == db.RowOf(u.user))
    && (forall k :: Claims(db, u, k) && db'.Named(k) ==> db.Named(k))
    && (u.UploadStored? && db.StoredOrTaken(u.key) ==> db'.StoredOrTaken(u.key) || db.Expired(u.putAt))
  }

  lemma UnaffectedLocal(db: Db, db': Db, u: Txn)
    requires Unaffected(db, db', u) && LocalOk(db, u)
    ensures LocalOk(db', u)
  {
    assert forall k :: Claims(db', u, k) ==> Claims(db, u, k);
  }

  lemma PutUnaffected(db: Db, k: Key, u: Txn)
    requires !u.Pending(k) && k !in db.written
    ensures Unaffected(db, db.(bucket := db.bucket[k := db.clock], written := db.written[k := db.clock]), u)
  {
  }

  lemma RowUnaffected(db: Db, user: User, row: UserRow, u: Txn)
    requires !u.Locks(user)
    requires row.avatar.Some? ==> !u.Pending(row.avatar.value) && !Claims(db, u, row.avatar.value)
    ensures Unaffected(db, db.(users := db.users[user := row]), u)
  {
  }

  lemma EraseUnaffected(db: Db, k: Key, erased: set<Key>, u: Txn)
    requires u.UploadStored? && u.key == k ==> db.Expired(u.putAt)
    requires forall other :: other in erased ==> !u.Pending(other)
    ensures Unaffected(db, db.Erase(k).(erased := db.erased + erased), u)
  {
    assert u.Uploads() ==> u.Pending(u.key);
  }

  lemma ReapUnaffected(db: Db, k: Key, minAge: nat, u: Txn)
    requires db.Safe(minAge) && u.UploadStored? && u.key == k ==> db.Expired(u.putAt)
    ensures Unaffected(db, db.ReapedBy(k, minAge), u)
  {
  }

  /** A key claimed is not one an upload may still commit. */
  lemma ClaimedIsExpired(db: Db, t: Txn, u: Txn, k: Key)
    requires Compatible(db, t, u) && Claims(db, t, k)
    ensures u.UploadStored? && u.key == k ==> db.Expired(u.putAt)
  {
    assert u.UploadStored? && u.key == k ==> u.Pending(k);
  }

  lemma CommitUnaffected(db: Db, t: Txn, step: Step, u: Txn)
    requires step.Commit? && (t.UploadStored? ==> !db.Expired(t.putAt))
    requires Compatible(db, t, u) && Compatible(db, u, t)
    ensures Unaffected(db, Effect(db, t, step), u)
  {
    match t
    case UploadStored(user, k, _, _) =>
      assert t.Pending(k) && MayCommit(db, t, k) && t.Locks(user);
      RowUnaffected(db, user, UserRow(Some(k), false), u);
    case RemovalCleared(user, _) =>
      assert t.Locks(user);
      RowUnaffected(db, user, UserRow(None, db.RowOf(user).purged), u);
    case PurgeLocked(user, _) =>
      assert t.Locks(user);
      RowUnaffected(db, user, UserRow(None, true), u);
    case _ =>
  }

  /** Erasing a named object leaves uploads alone: theirs is not named yet. */
  lemma RemovalUnaffected(db: Db, user: User, k: Key, u: Txn)
    requires LocalOk(db, u) && RowOk(db, db.RowOf(user), user)
    requires db.RowOf(user).avatar == Some(k)
    ensures Unaffected(db, db.Erase(k).(erased := db.erased + {k}), u)
  {
    assert db.Named(k);
    EraseUnaffected(db, k, {k}, u);
  }

  lemma DiscardUnaffected(db: Db, t: Txn, u: Txn)
    requires t.Discarding? && Compatible(db, t, u)
    ensures Unaffected(db, db.Erase(t.unnamed), u)
  {
    ClaimedIsExpired(db, t, u, t.unnamed);
    EraseUnaffected(db, t.unnamed, {}, u);
    assert db.erased + {} == db.erased;
  }

  lemma ReapingUnaffected(db: Db, t: Txn, k: Key, u: Txn)
    requires t.Reaping? && k in t.doomed && Compatible(db, t, u)
    ensures Unaffected(db, db.ReapedBy(k, t.minAge), u)
  {
    if db.Safe(t.minAge) {
      ClaimedIsExpired(db, t, u, k);
    }
    ReapUnaffected(db, k, t.minAge, u);
  }

  lemma PutStepUnaffected(db: Db, t: Txn, step: Step, u: Txn)
    requires step.PutObject? && PlaceOk(db, t) && Compatible(db, t, u)
    ensures Unaffected(db, Effect(db, t, step), u)
  {
    if t.UploadKeyed? {
      assert t.Pending(t.key);
      PutUnaffected(db, t.key, u);
    }
  }

  lemma ErasingStepUnaffected(db: Db, t: Txn, step: Step, u: Txn)
    requires step.EraseObject? || step.Discard? || step.Reap?
    requires LocalOk(db, u) && Compatible(db, t, u) && PlaceOk(db, t)
    requires step.Reap? && t.Reaping? ==> step.key in t.doomed
    requires t.RemovalLocked? ==> RowOk(db, db.RowOf(t.user), t.user)
    ensures Unaffected(db, Effect(db, t, step), u)
  {
    if step.Discard? && t.Discarding? {
      DiscardUnaffected(db, t, u);
    } else if step.Reap? && t.Reaping? {
      ReapingUnaffected(db, t, step.key, u);
    } else if step.EraseObject? && t.RemovalLocked? && t.current.Some? {
      RemovalUnaffected(db, t.user, t.current.value, u);
    }
  }

  predicate ChangesObjectsOrRows(step: Step) {
    step.PutObject? || step.Commit? || step.EraseObject? || step.Discard? || step.Reap?
  }

  lemma QuietEffect(db: Db, t: Txn, step: Step)
    requires !step.Tick? && !ChangesObjectsOrRows(step)
    ensures var db' := Effect(db, t, step);
            db' == db.(chosen := db'.chosen, interrupted := db'.interrupted) && db.chosen <= db'.chosen
  {
  }

  lemma NotesUnaffected(db: Db, chosen: set<Key>, interrupted: set<Key>, u: Txn)
    requires db.chosen <= chosen
    ensures Unaffected(db, db.(chosen := chosen, interrupted := interrupted), u)
  {
  }

  lemma QuietStepUnaffected(db: Db, t: Txn, step: Step, u: Txn)
    requires !step.Tick? && !ChangesObjectsOrRows(step)
    ensures Unaffected(db, Effect(db, t, step), u)
  {
    var db' := Effect(db, t, step);
    QuietEffect(db, t, step);
    NotesUnaffected(db, db'.chosen, db'.interrupted, u);
  }

  /** Writing an object, committing a key, and erasing objects leave other transactions alone. */
  lemma EffectUnaffected(db: Db, t: Txn, step: Step, u: Txn)
    requires PlaceOk(db, t) && LocalOk(db, u) && !step.Tick?
    requires Compatible(db, t, u) && Compatible(db, u, t)
    requires step.Commit? && t.UploadStored? ==> !db.Expired(t.putAt)
    requires step.Reap? && t.Reaping? ==> step.key in t.doomed
    requires t.RemovalLocked? ==> RowOk(db, db.RowOf(t.user), t.user)
    ensures Unaffected(db, Effect(db, t, step), u)
  {
    if step.PutObject? {
      PutStepUnaffected(db, t, step, u);
    } else if step.Commit? {
      CommitUnaffected(db, t, step, u);
    } else if step.EraseObject? || step.Discard? || step.Reap? {
      ErasingStepUnaffected(db, t, step, u);
    } else {
      QuietStepUnaffected(db, t, step, u);
    }
  }

  lemma OtherLocal(st: State, step: Step, b: Actor)
    requires Inv(st) && Enabled(st, step) && !step.Tick?
    requires b != step.a
    ensures LocalOk(Effect(st.db, st.Of(step.a), step), st.Of(b))
  {
    var db, t, u := st.db, st.Of(step.a), st.Of(b);
    assert LocalOk(db, t) && LocalOk(db, u);
    assert Compatible(db, t, u) && Compatible(db, u, t);
    if t.RemovalLocked? {
      assert RowOk(db, db.RowOf(t.user), t.user);
    }
    EffectUnaffected(db, t, step, u);
    UnaffectedLocal(db, Effect(db, t, step), u);
  }

  lemma SameClock(db: Db, db': Db, t: Txn, u: Txn)
    requires db'.clock == db.clock && db'.bound == db.bound
    requires Compatible(db, t, u)
    ensures Compatible(db', t, u)
  {
    assert forall k :: Claims(db', t, k) <==> Claims(db, t, k);
    assert forall k :: MayCommit(db', u, k) <==> MayCommit(db, u, k);
  }

  /** The claims a step adds: the photo it replaced or purged, or the orphans of a listing. */
  lemma NewClaims(st: State, step: Step, b: Actor, k: Key)
    requires Inv(st) && Enabled(st, step) && !step.Tick? && b != step.a
    requires Claims(st.db, Target(st.db, st.Of(step.a), step), k)
    ensures !MayCommit(st.db, st.Of(b), k)
  {
    var db, t, u := st.db, st.Of(step.a), st.Of(b);
    assert LocalOk(db, t) && LocalOk(db, u) && Compatible(db, t, u);
    if step.ReadKeys? {
      DoomedExactly(db, t, k);
      var l :| l in t.listed && l.stored.key == k
        && l.stored.modified.Some? && l.stored.modified.value + t.minAge < t.now;
      assert ListedOk(db, l);
    } else if step.Reap? {
      assert Claims(db, t, k);
    } else {
      assert step.Commit?;
      assert db.Named(k) by { assert RowOk(db, db.RowOf(t.user), t.user); }
    }
  }

  /** The user a step locks, and the key it starts to upload. */
  lemma TargetHolds(db: Db, t: Txn, step: Step)
    requires !step.Tick?
    ensures var t' := Target(db, t, step);
            && (forall user :: t'.Locks(user) ==>
                 t.Locks(user) || (step.LockUser? && (t.Uploading? || t.Removing? || t.Purging?) && user == t.user))
            && (forall k :: t'.Pending(k) ==> t.Pending(k) || (step.BeginUpload? && k == step.key))
            && (forall k :: MayCommit(db, t', k) ==> MayCommit(db, t, k) || (step.BeginUpload? && k == step.key))
  {
  }

  lemma StepLocks(st: State, step: Step, b: Actor)
    requires Inv(st) && Enabled(st, step) && !step.Tick? && b != step.a
    ensures var t', u := Target(st.db, st.Of(step.a), step), st.Of(b);
            && (forall user :: !(t'.Locks(user) && u.Locks(user)))
            && (forall k :: !(t'.Pending(k) && u.Pending(k)))
  {
    var t, u := st.Of(step.a), st.Of(b);
    assert LocalOk(st.db, u) && Compatible(st.db, t, u);
    TargetHolds(st.db, t, step);
    forall k | u.Pending(k) ensures k in st.db.chosen {
    }
  }

  /** What the step lists or claims is not what the other transaction uploads. */
  lemma StepCompatible(st: State, step: Step, b: Actor)
    requires Inv(st) && Enabled(st, step) && !step.Tick? && b != step.a
    ensures Compatible(st.db, Target(st.db, st.Of(step.a), step), st.Of(b))
  {
    var db, t, u := st.db, st.Of(step.a), st.Of(b);
    assert LocalOk(db, u) && Compatible(db, t, u);
    StepLocks(st, step, b);
    forall k | Claims(db, Target(db, t, step), k) ensures !MayCommit(db, u, k) {
      NewClaims(st, step, b, k);
    }
  }

  /** What the step uploads is not what the other transaction listed or claims. */
  lemma CompatibleStep(st: State, step: Step, b: Actor)
    requires Inv(st) && Enabled(st, step) && !step.Tick? && b != step.a
    ensures Compatible(st.db, st.Of(b), Target(st.db, st.Of(step.a), step))
  {
    var db, t, u := st.db, st.Of(step.a), st.Of(b);
    assert LocalOk(db, u) && Compatible(db, u, t);
    StepLocks(st, step, b);
    TargetHolds(db, t, step);
    assert u.Listing? ==> forall l :: l in u.listed ==> ListedOk(db, l);
    assert GlobalOk(db);
  }

  lemma PairStep(st: State, step: Step, a: Actor, b: Actor)
    requires Inv(st) && Enabled(st, step) && !step.Tick? && a != b
    ensures var st' := Apply(st, step); Compatible(st'.db, st'.Of(a), st'.Of(b))
  {
    var st' := Apply(st, step);
    assert Compatible(st.db, st.Of(a), st.Of(b));
    if a == step.a {
      StepCompatible(st, step, b);
    } else if b == step.a {
      CompatibleStep(st, step, a);
    }
    SameClock(st.db, st'.db, st'.Of(a), st'.Of(b));
  }

  lemma StepPreserves(st: State, step: Step)
    requires Inv(st) && Enabled(st, step)
    ensures Inv(Apply(st, step))
  {
    if step.Tick? {
      TickPreserves(st, step.elapsed);
      return;
    }
    var st' := Apply(st, step);
    assert LocalOk(st.db, st.Of(step.a));
    EffectGlobal(st.db, st.Of(step.a), step);
    forall a ensures LocalOk(st'.db, st'.Of(a)) {
      if a == step.a { StepLocal(st, step); } else { OtherLocal(st, step, a); }
    }
    forall a, b | a != b ensures Compatible(st'.db, st'.Of(a), st'.Of(b)) {
      PairStep(st, step, a, b);
    }
  }

  lemma {:induction false} RunsPreserve(st: State, steps: seq<Step>, end: State)
    requires Inv(st) && Runs(st, steps, end)
    ensures Inv(end)
    decreases |steps|
  {
    if steps != [] {
      StepPreserves(st, steps[0]);
      RunsPreserve(Apply(st, steps[0]), steps[1..], end);
    }
  }

  lemma ReachableInv(st: State)
    requires Reachable(st)
    ensures Inv(st)
  {
    var clock, bound, steps :| RunsFrom(clock, bound, steps, st);
    InitInv(clock, bound);
    RunsPreserve(Init(clock, bound), steps, st);
  }

  // ---- Dead keys stay dead -----------------------------------------------------------------------

  /** No row names the key and no upload can commit it any more. */
  ghost predicate Dead(st: State, k: Key) {
    k in st.db.chosen && !st.db.Named(k) && forall a :: !MayCommit(st.db, st.Of(a), k)
  }

  lemma DeadStays(st: State, step: Step, k: Key)
    requires Enabled(st, step) && Dead(st, k)
    ensures Dead(Apply(st, step), k)
  {
    var st' := Apply(st, step);
    if step.Tick? {
      assert forall a :: st'.Of(a) == st.Of(a);
      assert st'.db.Named(k) == st.db.Named(k);
    } else {
      var t := st.Of(step.a);
      assert !MayCommit(st.db, t, k);
      forall a ensures !MayCommit(st'.db, st'.Of(a), k) {
        assert !MayCommit(st.db, st.Of(a), k);
      }
    }
  }

  lemma {:induction false} DeadForever(st: State, steps: seq<Step>, end: State, k: Key)
    requires Dead(st, k) && Runs(st, steps, end)
    ensures Dead(end, k)
    decreases |steps|
  {
    if steps != [] {
      DeadStays(st, steps[0], k);
      DeadForever(Apply(st, steps[0]), steps[1..], end, k);
    }
  }

  lemma ClaimedIsDead(st: State, a: Actor, k: Key)
    requires Reachable(st) && Claims(st.db, st.Of(a), k)
    ensures Dead(st, k)
  {
    ReachableInv(st);
    assert LocalOk(st.db, st.Of(a));
    forall b ensures !MayCommit(st.db, st.Of(b), k) {
      assert b != a ==> Compatible(st.db, st.Of(a), st.Of(b));
    }
  }

  // ---- Main results ----------------------------------------------------------------------------

  /** When an upload commits within `bound` of writing its object, a pass whose age limit is at
      least that reaps no object whose key a committed row names then or in any later state,
      whatever other passes do. */
  lemma PassReapsOnlyTheDead(st: State, a: Actor, k: Key, steps: seq<Step>, end: State)
    requires Reachable(st) && Enabled(st, Reap(a, k)) && st.db.Safe(st.Of(a).minAge)
    requires Runs(st, steps, end)
    ensures !st.db.Named(k) && !end.db.Named(k)
  {
    ClaimedIsDead(st, a, k);
    DeadForever(st, steps, end, k);
  }

  /** Without any such bound, listing before reading still protects every object that a row
      named when it was listed, whatever its age. */
  lemma NamedWhenListedIsProtected(st: State, a: Actor, k: Key, steps: seq<Step>, end: State)
    requires Reachable(st) && Enabled(st, Reap(a, k)) && k in st.Of(a).protected
    requires Runs(st, steps, end)
    ensures !st.db.Named(k) && !end.db.Named(k)
  {
    ClaimedIsDead(st, a, k);
    DeadForever(st, steps, end, k);
  }

  /** An upload's or a purge's deletion of the previous object never hits a key that a row
      names, then or later. */
  lemma DiscardNeverHitsANamedKey(st: State, a: Actor, steps: seq<Step>, end: State)
    requires Reachable(st) && Enabled(st, Discard(a))
    requires Runs(st, steps, end)
    ensures !st.db.Named(st.Of(a).unnamed) && !end.db.Named(st.Of(a).unnamed)
  {
    ClaimedIsDead(st, a, st.Of(a).unnamed);
    DeadForever(st, steps, end, st.Of(a).unnamed);
  }

  /** A committed key names a stored object, unless a removal erased it or a pass with too short an
      age limit reaped it; and a purged account keeps no key. */
  lemma NamedKeysAreKnown(st: State, u: User)
    requires Reachable(st)
    ensures st.db.RowOf(u).avatar.Some? ==>
              var k := st.db.RowOf(u).avatar.value;
              && st.db.Named(k) && !st.db.RowOf(u).purged
              && (k in st.db.bucket || k in st.db.erased
                  || (k in st.db.reaped && !st.db.Safe(st.db.reaped[k])))
  {
    ReachableInv(st);
    assert RowOk(st.db, st.db.RowOf(u), u);
  }
}
