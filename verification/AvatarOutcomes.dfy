// What finished uploads, removals and purges leave, and what only an interrupted one can leave
// behind.

module PhotoOutcomes {
  import opened Prelude
  import opened Reconcile
  import opened PhotoProtocol
  import opened PhotoSafety

  // ---- What each commit leaves -------------------------------------------------------------------

  /** A finished upload leaves a row that names its key, a finished removal one that names none and
      no object, a finished purge one that names none for good; every other row, and every stored
      object, is left as it was. */
  lemma CommitLeaves(st: State, a: Actor)
    requires Reachable(st) && Enabled(st, Commit(a))
    ensures var t, db, db' := st.Of(a), st.db, Apply(st, Commit(a)).db;
            && (t.UploadStored? ==> db'.RowOf(t.user).avatar == Some(t.key) && !db'.RowOf(t.user).purged)
            && (t.RemovalCleared? ==>
                 && db'.RowOf(t.user).avatar == None && t.erased !in db'.bucket
                 && db'.RowOf(t.user).purged == db.RowOf(t.user).purged)
            && (t.PurgeLocked? ==> db'.RowOf(t.user).avatar == None && db'.RowOf(t.user).purged)
            && (t.RemovalLocked? ==> db'.RowOf(t.user).avatar == None && db'.RowOf(t.user) == db.RowOf(t.user))
            && (forall u :: u != t.user ==> db'.RowOf(u) == db.RowOf(u))
            && db'.bucket == db.bucket
  {
    ReachableInv(st);
    assert LocalOk(st.db, st.Of(a));
  }

  /** A commit that takes a key away goes on to delete its object, if there was one. */
  lemma ReplacedIsDeletedNext(st: State, a: Actor)
    requires Reachable(st) && Enabled(st, Commit(a))
    ensures var t, next := st.Of(a), Apply(st, Commit(a)).Of(a);
            match st.db.RowOf(t.user).avatar
            case Some(k) => if t.RemovalCleared? then next.Idle? && k == t.erased else next == Discarding(k)
            case None => next.Idle?
  {
    ReachableInv(st);
    assert LocalOk(st.db, st.Of(a));
  }

  /** A purged account stays purged. */
  lemma PurgedStays(st: State, step: Step, u: User)
    requires Reachable(st) && Enabled(st, step) && st.db.RowOf(u).purged
    ensures Apply(st, step).db.RowOf(u) == UserRow(None, true)
  {
    ReachableInv(st);
    assert RowOk(st.db, st.db.RowOf(u), u);
    if !step.Tick? {
      assert LocalOk(st.db, st.Of(step.a));
    }
  }

  /** At the lock a transaction reads its user's row as it is; an upload or a purge of a purged
      account stops there. */
  lemma LockReadsTheRow(st: State, a: Actor)
    requires Reachable(st) && Enabled(st, LockUser(a))
    ensures var t, row := st.Of(a), st.db.RowOf(st.Of(a).user);
            Apply(st, LockUser(a)).Of(a) ==
            if t.Removing? then RemovalLocked(t.user, row.avatar)
            else if row.purged then Idle
            else if t.Uploading? then UploadLocked(t.user, t.key, row.avatar)
            else PurgeLocked(t.user, row.avatar)
  {
  }

  /** Past the lock every statement keeps the user's lock, and nothing but a commit or a stop lets
      it go; a pass reaps one object at a time. */
  lemma StatementsGoOn(st: State, step: Step)
    requires Reachable(st) && Enabled(st, step) && !step.Tick?
    requires !step.Commit? && !step.Discard? && !step.Stop?
    ensures var t, next := st.Of(step.a), Apply(st, step).Of(step.a);
            && (t.HoldsRow() ==> next.HoldsRow() && next.user == t.user)
            && (step.BeginUpload? ==> next == Uploading(step.key.user, step.key))
            && (step.BeginRemoval? ==> next == Removing(step.user))
            && (step.BeginPurge? ==> next == Purging(step.user))
            && (step.Reap? ==> next == t.(doomed := t.doomed - {step.key}))
  {
  }

  ghost predicate CanGoOn(st: State, a: Actor) {
    exists step: Step :: !step.Tick? && !step.Stop? && step.a == a && Enabled(st, step)
  }

  /** Nothing else is in the way: an upload, a removal or a purge that no other transaction keeps
      from its user's row, and that is not late, has a next statement; so has a pass with an object
      left to reap. */
  lemma UnblockedGoesOn(st: State, a: Actor)
    requires Reachable(st) && !st.Of(a).Idle?
    requires var t := st.Of(a);
             && (t.Uploading? || t.Removing? || t.Purging? ==> !st.UserLockedByOther(a, t.user))
             && (t.UploadStored? ==> !st.db.Expired(t.putAt))
             && (t.Reaping? ==> t.doomed != {})
    ensures CanGoOn(st, a)
  {
    var step := match st.Of(a)
      case UploadLocked(_, _, _) => WriteKey(a)
      case UploadKeyed(_, _, _) => PutObject(a)
      case Discarding(_) => Discard(a)
      case RemovalLocked(_, current) => if current.Some? then EraseObject(a) else Commit(a)
      case RemovalErased(_, _) => ClearKey(a)
      case Listing(_, _, _) => ReadKeys(a)
      case Reaping(_, doomed, _) => (var k :| k in doomed; Reap(a, k))
      case UploadStored(_, _, _, _) => Commit(a)
      case RemovalCleared(_, _) => Commit(a)
      case PurgeLocked(_, _) => Commit(a)
      case _ => LockUser(a);
    assert !step.Tick? && !step.Stop? && step.a == a && Enabled(st, step);
  }

  // ---- What a pass looks at ----------------------------------------------------------------------

  /** A listing notes each object once listed, its instant if the storage gave one, and whether a
      row named it at that moment. */
  lemma ListingNotes(st: State, a: Actor, k: Key, stamped: bool)
    requires Reachable(st) && Enabled(st, ListObject(a, k, stamped))
    ensures var t, next := st.Of(a), Apply(st, ListObject(a, k, stamped)).Of(a);
            && next.Listing? && next.now == t.now && next.minAge == t.minAge
            && |next.listed| == |t.listed| + 1 && next.listed[..|t.listed|] == t.listed
            && k in st.db.written
            && var l := next.listed[|t.listed|];
               && l.stored.key == k && (l.wasNamed <==> st.db.Named(k))
               && l.stored.modified == if stamped then Some(st.db.written[k]) else None
  {
    ReachableInv(st);
  }

  ghost predicate OldEntry(t: Txn, l: Listed, k: Key)
    requires t.Listing?
  {
    l in t.listed && l.stored.key == k && l.stored.modified.Some? && l.stored.modified.value + t.minAge < t.now
  }

  /** It goes on to reap exactly the listed objects no row names now whose instant is more than
      the age limit before the pass began, and remembers which were named when listed. */
  lemma ReapedExactly(st: State, a: Actor, k: Key)
    requires Reachable(st) && Enabled(st, ReadKeys(a))
    ensures var t, next := st.Of(a), Apply(st, ReadKeys(a)).Of(a);
            && next.Reaping? && next.minAge == t.minAge
            && (k in next.doomed <==>
                 !st.db.Named(k) && exists l :: OldEntry(t, l, k))
            && (k in next.protected <==> exists l :: l in t.listed && l.stored.key == k && l.wasNamed)
  {
    var t := st.Of(a);
    if k in Doomed(st.db, t) {
      DoomedExactly(st.db, t, k);
      var l :| l in t.listed && l.stored.key == k
        && l.stored.modified.Some? && l.stored.modified.value + t.minAge < t.now;
      assert OldEntry(t, l, k);
    }
    forall l | OldEntry(t, l, k) && !st.db.Named(k) ensures k in Doomed(st.db, t) {
      OldIsDoomed(st.db, t, l);
    }
  }

  lemma OldIsDoomed(db: Db, t: Txn, l: Listed)
    requires t.Listing? && l in t.listed && !db.Named(l.stored.key)
    requires l.stored.modified.Some? && l.stored.modified.value + t.minAge < t.now
    ensures l.stored.key in Doomed(db, t)
  {
    var objects := Objects(t.listed);
    var known := set o | o in objects && db.Named(o.key) :: o.key;
    var i :| 0 <= i < |t.listed| && t.listed[i] == l;
    assert objects[i] == l.stored;
    OrphansExactly(objects, known, t.now - t.minAge);
    assert IsOrphan(l.stored, known, t.now - t.minAge);
  }

  // ---- What an interruption can leave ------------------------------------------------------------

  ghost predicate AnsweredFor(st: State, k: Key) {
    k in st.db.interrupted || exists a :: st.Of(a).AnswersFor(k)
  }

  ghost predicate ErasedUnderName(db: Db, k: Key) {
    db.Named(k) && k in db.erased
  }

  ghost predicate StoredUnnamed(db: Db, k: Key) {
    k in db.bucket && !db.Named(k)
  }

  /** A committed key whose object a removal erased, and a stored object no row names, are someone's
      unfinished business or an interrupted one's. */
  ghost predicate OutcomeOk(st: State, k: Key) {
    ErasedUnderName(st.db, k) || StoredUnnamed(st.db, k) ==> AnsweredFor(st, k)
  }

  /** The step's own transaction still answers for the key, or has no more to answer for. */
  lemma StepAnswers(st: State, step: Step, k: Key)
    requires Inv(st) && Enabled(st, step) && !step.Tick?
    requires st.Of(step.a).AnswersFor(k)
    ensures var st' := Apply(st, step);
            || st'.Of(step.a).AnswersFor(k) || k in st'.db.interrupted
            || (!ErasedUnderName(st'.db, k) && !StoredUnnamed(st'.db, k))
  {
    assert LocalOk(st.db, st.Of(step.a));
  }

  /** A removal's erase makes a key its business. */
  lemma NewlyErased(db: Db, t: Txn, step: Step, k: Key)
    requires GlobalOk(db) && LocalOk(db, t) && !step.Tick? && !ErasedUnderName(db, k)
    ensures ErasedUnderName(Effect(db, t, step), k) ==> Target(db, t, step).AnswersFor(k)
  {
  }

  /** An upload's object, and the one it or a purge replaced, become its business. */
  lemma NewlyUnnamed(db: Db, t: Txn, step: Step, k: Key)
    requires LocalOk(db, t) && !step.Tick? && !StoredUnnamed(db, k)
    requires t.UploadStored? || t.PurgeLocked? || t.RemovalCleared? ==> RowOk(db, db.RowOf(t.user), t.user)
    requires k in db.erased ==> k !in db.bucket
    ensures StoredUnnamed(Effect(db, t, step), k) ==> Target(db, t, step).AnswersFor(k)
  {
  }

  /** A step that makes a key someone's business makes it its own transaction's. */
  lemma NewBusiness(st: State, step: Step, k: Key)
    requires Inv(st) && Enabled(st, step) && !step.Tick?
    requires !ErasedUnderName(st.db, k) && !StoredUnnamed(st.db, k)
    ensures var st' := Apply(st, step);
            ErasedUnderName(st'.db, k) || StoredUnnamed(st'.db, k) ==> st'.Of(step.a).AnswersFor(k)
  {
    var t := st.Of(step.a);
    assert LocalOk(st.db, t);
    if t.UploadStored? || t.PurgeLocked? || t.RemovalCleared? {
      assert RowOk(st.db, st.db.RowOf(t.user), t.user);
    }
    NewlyErased(st.db, t, step, k);
    NewlyUnnamed(st.db, t, step, k);
  }

  lemma OutcomeStays(st: State, step: Step, k: Key)
    requires Inv(st) && OutcomeOk(st, k) && Enabled(st, step)
    ensures OutcomeOk(Apply(st, step), k)
  {
    var st' := Apply(st, step);
    if step.Tick? {
      assert forall a :: st'.Of(a) == st.Of(a);
      assert st'.db.Named(k) == st.db.Named(k);
    } else if ErasedUnderName(st.db, k) || StoredUnnamed(st.db, k) {
      assert st.db.interrupted <= st'.db.interrupted;
      if a :| st.Of(a).AnswersFor(k) {
        if a == step.a {
          StepAnswers(st, step, k);
        } else {
          assert st'.Of(a) == st.Of(a);
        }
      }
    } else {
      NewBusiness(st, step, k);
    }
  }

  lemma {:induction false} OutcomeKept(st: State, steps: seq<Step>, end: State, k: Key)
    requires Inv(st) && OutcomeOk(st, k) && Runs(st, steps, end)
    ensures OutcomeOk(end, k)
    decreases |steps|
  {
    if steps != [] {
      StepPreserves(st, steps[0]);
      OutcomeStays(st, steps[0], k);
      OutcomeKept(Apply(st, steps[0]), steps[1..], end, k);
    }
  }

  lemma ReachableOutcome(st: State, k: Key)
    requires Reachable(st)
    ensures OutcomeOk(st, k)
  {
    var clock, bound, steps :| RunsFrom(clock, bound, steps, st);
    InitInv(clock, bound);
    OutcomeKept(Init(clock, bound), steps, st, k);
  }

  ghost predicate RemovalOpen(st: State, k: Key) {
    exists a :: (st.Of(a).RemovalErased? || st.Of(a).RemovalCleared?) && st.Of(a).erased == k
  }

  /** In every run a committed key names a stored object, unless a removal of that very key is
      between its erase and its commit, or stopped there, or a pass whose age limit was shorter
      than uploads may take reaped it. */
  lemma CommittedKeysAreStored(st: State, k: Key)
    requires Reachable(st) && st.db.Named(k)
    ensures || k in st.db.bucket
            || (k in st.db.erased && (RemovalOpen(st, k) || k in st.db.interrupted))
            || (k in st.db.reaped && !st.db.Safe(st.db.reaped[k]))
  {
    ReachableInv(st);
    NamedKeysAreKnown(st, k.user);
    ReachableOutcome(st, k);
    if k in st.db.erased && k !in st.db.interrupted {
      var a :| st.Of(a).AnswersFor(k);
      assert LocalOk(st.db, st.Of(a));
      assert RowOk(st.db, st.db.RowOf(k.user), k.user);
    }
  }

  /** In every run a stored object is named by a row, or belongs to an upload about to commit it,
      or is about to be deleted; or one of those was interrupted. Nothing else is left behind. */
  lemma NothingIsLeftBehind(st: State, k: Key)
    requires Reachable(st) && k in st.db.bucket && !st.db.Named(k)
    ensures || k in st.db.interrupted
            || exists a :: (st.Of(a).UploadStored? && st.Of(a).key == k)
                        || (st.Of(a).Discarding? && st.Of(a).unnamed == k)
  {
    ReachableInv(st);
    ReachableOutcome(st, k);
    forall u ensures st.db.RowOf(u).avatar.Some? ==> st.db.Named(st.db.RowOf(u).avatar.value) {
      assert RowOk(st.db, st.db.RowOf(u), u);
    }
    if k !in st.db.interrupted {
      var a :| st.Of(a).AnswersFor(k);
      assert LocalOk(st.db, st.Of(a));
    }
  }
}
