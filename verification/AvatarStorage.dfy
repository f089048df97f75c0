// Profile photos and the reconciliation pass on one bucket and one key column: uploads,
// removals, account purges and passes interleaved step by step, each free to stop (a crash, a
// disconnect, a storage error) between any two of its steps.

module PhotoProtocol {
  import opened Prelude
  import opened Reconcile

  type User = nat
  type Actor = nat

  datatype UserRow = UserRow(avatar: Option<Key>, purged: bool)

  /** What a listing recorded of an object, and whether a row named it at that moment. */
  datatype Listed = Listed(stored: StoredObject, wasNamed: bool)

  datatype Txn =
    | Idle
    | Uploading(user: User, key: Key)
    | UploadLocked(user: User, key: Key, previous: Option<Key>)
    | UploadKeyed(user: User, key: Key, previous: Option<Key>)
    | UploadStored(user: User, key: Key, previous: Option<Key>, putAt: nat)
    | Discarding(unnamed: Key)
    | Removing(user: User)
    | RemovalLocked(user: User, current: Option<Key>)
    | RemovalErased(user: User, erased: Key)
    | RemovalCleared(user: User, erased: Key)
    | Purging(user: User)
    | PurgeLocked(user: User, current: Option<Key>)
    | Listing(now: nat, minAge: nat, listed: seq<Listed>)
    | Reaping(minAge: nat, doomed: set<Key>, protected: set<Key>)
  {
    predicate HoldsRow() {
      UploadLocked? || UploadKeyed? || UploadStored? || RemovalLocked? || RemovalErased?
      || RemovalCleared? || PurgeLocked?
    }

    /** Holds the row lock of the user. */
    predicate Locks(u: User) {
      HoldsRow() && user == u
    }

    /** The object it answers for: a removal whose row is not cleared yet, or one whose object is
        to be named or deleted next. */
    predicate AnswersFor(k: Key) {
      || ((RemovalErased? || RemovalCleared?) && erased == k)
      || (UploadStored? && key == k)
      || (Discarding? && unnamed == k)
    }

    function Unfinished(): set<Key> {
      if RemovalErased? || RemovalCleared? then {erased}
      else if UploadStored? then {key}
      else if Discarding? then {unnamed}
      else {}
    }

    predicate Uploads() {
      Uploading? || UploadLocked? || UploadKeyed? || UploadStored?
    }

    /** An upload that has not committed the key yet. */
    predicate Pending(k: Key) {
      Uploads() && key == k
    }
  }

  /** What is shared. `bucket` gives each object's write instant. The rest is history: the
      keys ever chosen, the instant each was written at, those a removal erased, the age limit of
      the last pass that reaped each, and those a transaction that stopped left behind. `bound` is the longest an upload takes from its object's
      write to its commit, when there is one. */
  datatype Db = Db(
    clock: nat,
    users: map<User, UserRow>,
    bucket: map<Key, nat>,
    chosen: set<Key>,
    written: map<Key, nat>,
    erased: set<Key>,
    reaped: map<Key, nat>,
    interrupted: set<Key>,
    bound: Option<nat>)
  {
    function RowOf(u: User): UserRow {
      if u in users then users[u] else UserRow(None, false)
    }

    /** A committed row names the key. */
    predicate Named(k: Key) {
      RowOf(k.user).avatar == Some(k)
    }

    function Erase(k: Key): Db {
      this.(bucket := bucket - {k})
    }

    function ReapedBy(k: Key, minAge: nat): Db {
      Erase(k).(reaped := reaped[k := minAge])
    }

    /** An upload commits before a pass with this age limit could take its object for an orphan. */
    predicate Safe(minAge: nat) {
      bound.Some? && bound.value <= minAge
    }

    /** Stored, or reaped by a pass whose age limit was no bound on uploads. */
    predicate StoredOrTaken(k: Key) {
      k in bucket || (k in reaped && !Safe(reaped[k]))
    }

    /** Too late to commit under the bound. */
    predicate Expired(putAt: nat) {
      bound.Some? && putAt + bound.value < clock
    }
  }

  datatype State = State(db: Db, txns: map<Actor, Txn>) {
    function Of(a: Actor): Txn {
      if a in txns then txns[a] else Idle
    }

    function Put(a: Actor, t: Txn): State {
      this.(txns := txns[a := t])
    }

    ghost predicate UserLockedByOther(a: Actor, u: User) {
      exists b :: b != a && Of(b).Locks(u)
    }
  }

  function Init(clock: nat, bound: Option<nat>): State {
    State(Db(clock, map[], map[], {}, map[], {}, map[], {}, bound), map[])
  }

  datatype Step =
    | Tick(elapsed: nat)
    | BeginUpload(a: Actor, key: Key)
    | LockUser(a: Actor)
    | WriteKey(a: Actor)
    | PutObject(a: Actor)
    | Commit(a: Actor)
    | Discard(a: Actor)
    | BeginRemoval(a: Actor, user: User)
    | EraseObject(a: Actor)
    | ClearKey(a: Actor)
    | BeginPurge(a: Actor, user: User)
    | BeginPass(a: Actor, minAge: nat)
    | ListObject(a: Actor, key: Key, stamped: bool)
    | ReadKeys(a: Actor)
    | Reap(a: Actor, key: Key)
    | Stop(a: Actor)

  ghost predicate Enabled(st: State, step: Step) {
    var db := st.db;
    if step.Tick? then true
    else
      var t := st.Of(step.a);
      match step
      case BeginUpload(_, k) => t.Idle? && k !in db.chosen
      case LockUser(a) =>
        (t.Uploading? || t.Removing? || t.Purging?) && !st.UserLockedByOther(a, t.user)
      case WriteKey(_) => t.UploadLocked?
      case PutObject(_) => t.UploadKeyed?
      case Commit(_) =>
        (t.UploadStored? && !db.Expired(t.putAt)) || t.RemovalCleared? || t.PurgeLocked?
        || (t.RemovalLocked? && t.current.None?)
      case Discard(_) => t.Discarding?
      case BeginRemoval(_, _) => t.Idle?
      case EraseObject(_) => t.RemovalLocked? && t.current.Some?
      case ClearKey(_) => t.RemovalErased?
      case BeginPurge(_, _) => t.Idle?
      case BeginPass(_, _) => t.Idle?
      case ListObject(_, k, _) => t.Listing? && k in db.bucket
      case ReadKeys(_) => t.Listing?
      case Reap(_, k) => t.Reaping? && k in t.doomed
      case Stop(_) => !t.Idle?
      case Tick(_) => true
  }

  /** A photo upload of a purged account stops at the lock: 401. */
  function AfterLock(db: Db, t: Txn): Txn
    requires t.Uploading? || t.Removing? || t.Purging?
  {
    var row := db.RowOf(t.user);
    match t
    case Uploading(u, k) => if row.purged then Idle else UploadLocked(u, k, row.avatar)
    case Removing(u) => RemovalLocked(u, row.avatar)
    case Purging(u) => if row.purged then Idle else PurgeLocked(u, row.avatar)
  }

  function Objects(listed: seq<Listed>): seq<StoredObject> {
    seq(|listed|, i requires 0 <= i < |listed| => listed[i].stored)
  }

  /** The keys of the orphans of the listing, against the keys committed rows name. */
  ghost function Doomed(db: Db, t: Txn): set<Key>
    requires t.Listing?
  {
    var objects := Objects(t.listed);
    var known := set o | o in objects && db.Named(o.key) :: o.key;
    set o | o in Classified(objects, known, t.now - t.minAge).orphans :: o.key
  }

  /** The listed keys a row named when they were listed. */
  function Protected(listed: seq<Listed>): set<Key> {
    set l | l in listed && l.wasNamed :: l.stored.key
  }

  function Afterwards(discarded: Option<Key>): Txn {
    match discarded case None => Idle case Some(k) => Discarding(k)
  }

  ghost function Target(db: Db, t: Txn, step: Step): Txn
    requires !step.Tick?
  {
    match (step, t)
    case (BeginUpload(_, k), _) => Uploading(k.user, k)
    case (LockUser(_), Uploading(_, _)) => AfterLock(db, t)
    case (LockUser(_), Removing(_)) => AfterLock(db, t)
    case (LockUser(_), Purging(_)) => AfterLock(db, t)
    case (WriteKey(_), UploadLocked(u, k, previous)) => UploadKeyed(u, k, previous)
    case (PutObject(_), UploadKeyed(u, k, previous)) => UploadStored(u, k, previous, db.clock)
    case (Commit(_), UploadStored(_, _, previous, _)) => Afterwards(previous)
    case (Commit(_), PurgeLocked(_, current)) => Afterwards(current)
    case (BeginRemoval(_, u), _) => Removing(u)
    case (EraseObject(_), RemovalLocked(u, Some(k))) => RemovalErased(u, k)
    case (ClearKey(_), RemovalErased(u, k)) => RemovalCleared(u, k)
    case (BeginPurge(_, u), _) => Purging(u)
    case (BeginPass(_, minAge), _) => Listing(db.clock, minAge, [])
    case (ListObject(_, k, stamped), Listing(now, minAge, listed)) =>
      var modified := if stamped && k in db.bucket then Some(db.bucket[k]) else None;
      Listing(now, minAge, listed + [Listed(StoredObject(k, modified), db.Named(k))])
    case (ReadKeys(_), Listing(_, minAge, listed)) => Reaping(minAge, Doomed(db, t), Protected(listed))
    case (Reap(_, k), Reaping(minAge, doomed, protected)) => Reaping(minAge, doomed - {k}, protected)
    case _ => Idle
  }

  /** What the step does to what is shared. */
  function Effect(db: Db, t: Txn, step: Step): Db
    requires !step.Tick?
  {
    match (step, t)
    case (BeginUpload(_, k), _) => db.(chosen := db.chosen + {k})
    case (PutObject(_), UploadKeyed(_, k, _)) =>
      db.(bucket := db.bucket[k := db.clock], written := db.written[k := db.clock])
    case (Commit(_), UploadStored(u, k, _, _)) => db.(users := db.users[u := UserRow(Some(k), false)])
    case (Commit(_), RemovalCleared(u, _)) =>
      db.(users := db.users[u := UserRow(None, db.RowOf(u).purged)])
    case (Commit(_), PurgeLocked(u, _)) => db.(users := db.users[u := UserRow(None, true)])
    case (Discard(_), Discarding(k)) => db.Erase(k)
    case (EraseObject(_), RemovalLocked(_, Some(k))) => db.Erase(k).(erased := db.erased + {k})
    case (Stop(_), _) => db.(interrupted := db.interrupted + t.Unfinished())
    case (Reap(_, k), Reaping(minAge, _, _)) => db.ReapedBy(k, minAge)
    case _ => db
  }

  ghost function Apply(st: State, step: Step): State
    requires Enabled(st, step)
  {
    if step.Tick? then st.(db := st.db.(clock := st.db.clock + step.elapsed))
    else State(Effect(st.db, st.Of(step.a), step),
               st.txns[step.a := Target(st.db, st.Of(step.a), step)])
  }

  ghost predicate Runs(st: State, steps: seq<Step>, end: State)
    decreases |steps|
  {
    if steps == [] then st == end
    else Enabled(st, steps[0]) && Runs(Apply(st, steps[0]), steps[1..], end)
  }

  ghost predicate RunsFrom(clock: nat, bound: Option<nat>, steps: seq<Step>, end: State) {
    Runs(Init(clock, bound), steps, end)
  }

  ghost predicate Reachable(st: State) {
    exists clock, bound, steps :: RunsFrom(clock, bound, steps, st)
  }
}
