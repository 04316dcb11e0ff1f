/**
 * The same transactions, interleaved statement by statement. The user row is locked from Save's SELECT ... FOR UPDATE,
 * and from any UPDATE of the row, to the end of the transaction; the file row is locked from Delete's fetch. Which
 * canonical row is counted does not matter here, so a file row is just its owner and size. A transaction may abort at
 * any point; a statement that finds its lock taken is not enabled.
 */
module QuotaLocks {
  import opened Options
  import opened Keys
  import opened Sums
  import opened Ledger

  /** A committed, active file row, or the charge of a document. */
  datatype Item = Item(user: Id, size: nat)

  datatype Tx =
    | SaveBegun(user: Id, size: nat)
    | SaveChecked(user: Id, size: nat, seen: int)
    | SaveInserted(user: Id, size: nat, seen: int, id: Id)
    | SaveCharged(user: Id, size: nat, id: Id, used: int)
    | DeleteBegun(user: Id, fileId: Id)
    | DeleteFetched(user: Id, fileId: Id, size: nat)
    | DeleteReclaimed(user: Id, fileId: Id, size: nat, used: int)
    | CreateBegun(user: Id, size: nat, id: Id)
    | CreateCharged(user: Id, size: nat, id: Id, used: int)

  predicate HoldsUser(tx: Tx) {
    tx.SaveChecked? || tx.SaveInserted? || tx.SaveCharged? || tx.DeleteReclaimed? || tx.CreateCharged?
  }

  predicate HoldsFile(tx: Tx) {
    tx.DeleteFetched? || tx.DeleteReclaimed?
  }

  /**
   * Committed rows, the row locks and the open transactions. `created` is a history: the documents ever created,
   * which stay charged when their rows are deleted.
   */
  datatype System = System(
    users: map<Id, User>,
    files: map<Id, Item>,
    created: map<Id, Item>,
    userLock: map<Id, Id>,
    fileLock: map<Id, Id>,
    txs: map<Id, Tx>)

  datatype Action =
    | Begin(tx: Id, start: Tx)
    | LockAndCheck(tx: Id)
    | InsertRow(tx: Id, id: Id)
    | ChargeUsage(tx: Id)
    | FetchFile(tx: Id)
    | ReclaimUsage(tx: Id)
    | ChargeDocument(tx: Id)
    | Commit(tx: Id)
    | Abort(tx: Id)

  ghost predicate Enabled(s: System, a: Action) {
    match a
    case Begin(t, start) => t !in s.txs && (start.SaveBegun? || start.DeleteBegun? || start.CreateBegun?)
    case LockAndCheck(t) =>
      t in s.txs && s.txs[t].SaveBegun? && s.txs[t].user in s.users && s.txs[t].user !in s.userLock
    case InsertRow(t, id) => t in s.txs && s.txs[t].SaveChecked? && id !in s.files
    case ChargeUsage(t) => t in s.txs && s.txs[t].SaveInserted? && s.txs[t].user in s.users
    case FetchFile(t) =>
      t in s.txs && s.txs[t].DeleteBegun? && s.txs[t].fileId in s.files && s.txs[t].fileId !in s.fileLock
      && s.files[s.txs[t].fileId].user == s.txs[t].user
    case ReclaimUsage(t) =>
      t in s.txs && s.txs[t].DeleteFetched? && s.txs[t].user in s.users && s.txs[t].user !in s.userLock
    case ChargeDocument(t) =>
      t in s.txs && s.txs[t].CreateBegun? && s.txs[t].user in s.users && s.txs[t].user !in s.userLock
    case Commit(t) =>
      t in s.txs
      && (match s.txs[t]
          case SaveCharged(_, _, id, _) => id !in s.files
          case DeleteReclaimed(_, _, _, _) => true
          case CreateCharged(_, _, id, _) => id !in s.created
          case _ => false)
    case Abort(t) => t in s.txs
  }

  /** Ends a transaction: its locks go, and so does whatever it has not committed. */
  ghost function End(s: System, t: Id): System {
    s.(txs := s.txs - {t},
       userLock := map u | u in s.userLock && s.userLock[u] != t :: s.userLock[u],
       fileLock := map f | f in s.fileLock && s.fileLock[f] != t :: s.fileLock[f])
  }

  ghost function Apply(s: System, a: Action): System
    requires Enabled(s, a)
  {
    match a
    case Begin(t, start) => s.(txs := s.txs[t := start])
    case LockAndCheck(t) =>
      var tx := s.txs[t];
      var row := s.users[tx.user];
      if Wrap64(row.used + tx.size) > row.quota then End(s, t)
      else s.(txs := s.txs[t := SaveChecked(tx.user, tx.size, row.used)], userLock := s.userLock[tx.user := t])
    case InsertRow(t, id) =>
      var tx := s.txs[t];
      s.(txs := s.txs[t := SaveInserted(tx.user, tx.size, tx.seen, id)])
    case ChargeUsage(t) =>
      var tx := s.txs[t];
      var used := s.users[tx.user].used + tx.size;
      if used > MAX_INT64 then End(s, t)
      else s.(txs := s.txs[t := SaveCharged(tx.user, tx.size, tx.id, used)])
    case FetchFile(t) =>
      var tx := s.txs[t];
      s.(txs := s.txs[t := DeleteFetched(tx.user, tx.fileId, s.files[tx.fileId].size)],
         fileLock := s.fileLock[tx.fileId := t])
    case ReclaimUsage(t) =>
      var tx := s.txs[t];
      var used := Max(0, s.users[tx.user].used - tx.size);
      s.(txs := s.txs[t := DeleteReclaimed(tx.user, tx.fileId, tx.size, used)], userLock := s.userLock[tx.user := t])
    case ChargeDocument(t) =>
      var tx := s.txs[t];
      var used := s.users[tx.user].used + tx.size;
      if used > MAX_INT64 then End(s, t)
      else s.(txs := s.txs[t := CreateCharged(tx.user, tx.size, tx.id, used)], userLock := s.userLock[tx.user := t])
    case Commit(t) => End(Install(s, s.txs[t]), t)
    case Abort(t) => End(s, t)
  }

  /** The writes of a transaction that has reached its commit. */
  ghost function Install(s: System, tx: Tx): System {
    match tx
    case SaveCharged(user, size, id, used) =>
      s.(users := SetUsed(s.users, user, used), files := s.files[id := Item(user, size)])
    case DeleteReclaimed(user, fileId, _, used) =>
      s.(users := SetUsed(s.users, user, used), files := s.files - {fileId})
    case CreateCharged(user, size, id, used) =>
      s.(users := SetUsed(s.users, user, used), created := s.created[id := Item(user, size)])
    case _ => s
  }

  ghost function SetUsed(users: map<Id, User>, user: Id, used: int): map<Id, User> {
    if user in users then users[user := users[user].(used := used)] else users
  }

  ghost function Bytes(items: map<Id, Item>, user: Id): int {
    Sum(SizesOf(items, user))
  }

  ghost function SizesOf(items: map<Id, Item>, user: Id): map<Id, int> {
    map id | id in items && items[id].user == user :: items[id].size
  }

  // ---------------------------------------------------------------- the invariant

  ghost predicate Conserved(s: System) {
    forall u | u in s.users :: s.users[u].used == Bytes(s.files, u) + Bytes(s.created, u)
  }

  ghost predicate WithinQuota(s: System) {
    forall u | u in s.users :: Bytes(s.files, u) <= Max(0, s.users[u].quota)
  }

  predicate HeldBy(locks: map<Id, Id>, row: Id, t: Id) {
    row in locks && locks[row] == t
  }

  /** A transaction that has taken a lock holds it, so a row has at most one holder; and no lock is held otherwise. */
  ghost predicate LocksHeld(s: System) {
    && (forall t | t in s.txs && HoldsUser(s.txs[t]) :: HeldBy(s.userLock, s.txs[t].user, t))
    && (forall t | t in s.txs && HoldsFile(s.txs[t]) :: HeldBy(s.fileLock, s.txs[t].fileId, t))
  }

  ghost predicate NoOtherLocks(s: System) {
    && (forall u | u in s.userLock ::
          var t := s.userLock[u]; t in s.txs && HoldsUser(s.txs[t]) && s.txs[t].user == u)
    && (forall f | f in s.fileLock ::
          var t := s.fileLock[f]; t in s.txs && HoldsFile(s.txs[t]) && s.txs[t].fileId == f)
  }

  /** What a transaction has read of the rows it has locked is still what is committed. */
  ghost predicate Current(s: System, tx: Tx) {
    && (HoldsUser(tx) ==> tx.user in s.users)
    && (HoldsFile(tx) ==> tx.fileId in s.files && s.files[tx.fileId] == Item(tx.user, tx.size))
    && match tx
       case SaveChecked(u, size, seen) => seen == s.users[u].used && Wrap64(seen + size) <= s.users[u].quota
       case SaveInserted(u, size, seen, _) => seen == s.users[u].used && Wrap64(seen + size) <= s.users[u].quota
       case SaveCharged(u, size, _, used) =>
         used == s.users[u].used + size && used <= s.users[u].quota && used <= MAX_INT64
       case DeleteReclaimed(u, _, size, used) => used == s.users[u].used - size
       case CreateCharged(u, size, _, used) => used == s.users[u].used + size && used <= MAX_INT64
       case _ => true
  }

  ghost predicate Invariant(s: System) {
    && Conserved(s) && WithinQuota(s) && LocksHeld(s)
    && forall t | t in s.txs :: Current(s, s.txs[t])
  }

  lemma BytesPut(items: map<Id, Item>, id: Id, item: Item, user: Id)
    requires id !in items
    ensures Bytes(items[id := item], user) == Bytes(items, user) + if item.user == user then item.size else 0
  {
    if item.user == user {
      assert SizesOf(items[id := item], user) == SizesOf(items, user)[id := item.size];
      SumPut(SizesOf(items, user), id, item.size);
    } else {
      assert SizesOf(items[id := item], user) == SizesOf(items, user);
    }
  }

  lemma BytesTake(items: map<Id, Item>, id: Id, user: Id)
    requires id in items
    ensures Bytes(items - {id}, user) == Bytes(items, user) - if items[id].user == user then items[id].size else 0
    ensures Bytes(items - {id}, user) >= 0
  {
    if items[id].user == user {
      assert SizesOf(items - {id}, user) == SizesOf(items, user) - {id};
      SumTake(SizesOf(items, user), id);
    } else {
      assert SizesOf(items - {id}, user) == SizesOf(items, user);
    }
    BytesNonnegative(items - {id}, user);
  }

  lemma BytesNonnegative(items: map<Id, Item>, user: Id)
    ensures Bytes(items, user) >= 0
  {
    SumAtLeast(SizesOf(items, user), 0);
  }

  /** The account holds at least what a Delete is about to give back. */
  lemma EnoughToReclaim(s: System, t: Id)
    requires Invariant(s) && t in s.txs && s.txs[t].DeleteFetched? && s.txs[t].user in s.users
    ensures s.users[s.txs[t].user].used - s.txs[t].size >= 0
  {
    assert Current(s, s.txs[t]);
    BytesTake(s.files, s.txs[t].fileId, s.txs[t].user);
    BytesNonnegative(s.created, s.txs[t].user);
  }

  /** What fits the column and wraps to no more than the quota is no more than the quota. */
  lemma CheckedMeansFits(used: int, size: nat, quota: int)
    requires 0 <= used && used + size <= MAX_INT64 && Wrap64(used + size) <= quota
    ensures used + size <= quota
  {
  }

  lemma EndKeeps(s: System, t: Id)
    requires Invariant(s) && t in s.txs
    ensures Invariant(End(s, t))
  {
    EndInstalled(s, t);
  }

  /** Where the transaction takes a lock, the lock was free; otherwise the locks stay. */
  predicate Takes(before: map<Id, Id>, after: map<Id, Id>, held: bool, holds: bool, row: Id, t: Id) {
    if holds && !held then row !in before && after == before[row := t] else after == before
  }

  lemma UpdateKeeps(s: System, t: Id, tx: Tx, n: System)
    requires Invariant(s) && Current(s, tx)
    requires n.users == s.users && n.files == s.files && n.created == s.created && n.txs == s.txs[t := tx]
    requires Takes(s.userLock, n.userLock, t in s.txs && HoldsUser(s.txs[t]), HoldsUser(tx), tx.user, t)
    requires HoldsUser(tx) && t in s.txs ==> s.txs[t].user == tx.user
    requires if HoldsFile(tx) then
               && Takes(s.fileLock, n.fileLock, t in s.txs && HoldsFile(s.txs[t]), true, tx.fileId, t)
               && (t in s.txs && HoldsFile(s.txs[t]) ==> s.txs[t].fileId == tx.fileId)
             else n.fileLock == s.fileLock
    ensures Invariant(n)
  {
    UpdateKeepsLocks(s, t, tx, n);
    SameRowsSameSums(s, n);
    forall o | o in n.txs ensures Current(n, n.txs[o]) {
      assert Current(s, if o == t then tx else s.txs[o]);
    }
  }

  lemma UpdateKeepsLocks(s: System, t: Id, tx: Tx, n: System)
    requires LocksHeld(s)
    requires n.txs == s.txs[t := tx]
    requires Takes(s.userLock, n.userLock, t in s.txs && HoldsUser(s.txs[t]), HoldsUser(tx), tx.user, t)
    requires HoldsUser(tx) && t in s.txs ==> s.txs[t].user == tx.user
    requires if HoldsFile(tx) then
               && Takes(s.fileLock, n.fileLock, t in s.txs && HoldsFile(s.txs[t]), true, tx.fileId, t)
               && (t in s.txs && HoldsFile(s.txs[t]) ==> s.txs[t].fileId == tx.fileId)
             else n.fileLock == s.fileLock
    ensures LocksHeld(n)
  {
  }

  lemma SameRowsSameSums(s: System, n: System)
    requires Conserved(s) && WithinQuota(s)
    requires n.users == s.users && n.files == s.files && n.created == s.created
    ensures Conserved(n) && WithinQuota(n)
  {
    forall u | u in n.users
      ensures n.users[u].used == Bytes(n.files, u) + Bytes(n.created, u)
      ensures Bytes(n.files, u) <= Max(0, n.users[u].quota)
    {
      assert u in s.users;
    }
  }

  lemma InstallKeepsAccount(s: System, t: Id, u: Id)
    requires Invariant(s) && Enabled(s, Commit(t)) && u in s.users
    ensures var n := Install(s, s.txs[t]);
            && u in n.users && n.users[u].quota == s.users[u].quota
            && n.users[u].used == Bytes(n.files, u) + Bytes(n.created, u)
            && Bytes(n.files, u) <= Max(0, n.users[u].quota)
  {
    assert Current(s, s.txs[t]);
    BytesNonnegative(s.created, u);
    match s.txs[t]
    case SaveCharged(user, size, id, _) => BytesPut(s.files, id, Item(user, size), u);
    case DeleteReclaimed(_, fileId, _, _) => BytesTake(s.files, fileId, u);
    case CreateCharged(user, size, id, _) => BytesPut(s.created, id, Item(user, size), u);
  }

  lemma InstallKeepsSums(s: System, t: Id)
    requires Invariant(s) && Enabled(s, Commit(t))
    ensures Conserved(Install(s, s.txs[t])) && WithinQuota(Install(s, s.txs[t]))
  {
    var n := Install(s, s.txs[t]);
    assert n.users.Keys == s.users.Keys by {
      assert Current(s, s.txs[t]);
    }
    forall u | u in s.users
      ensures n.users[u].used == Bytes(n.files, u) + Bytes(n.created, u)
      ensures Bytes(n.files, u) <= Max(0, n.users[u].quota)
    {
      InstallKeepsAccount(s, t, u);
    }
  }

  /** The rows a commit writes are locked by it, so nobody else's reading goes stale. */
  lemma OthersStayCurrent(s: System, t: Id, o: Id)
    requires Invariant(s) && Enabled(s, Commit(t)) && o in s.txs && o != t
    ensures Current(Install(s, s.txs[t]), s.txs[o])
  {
    assert Current(s, s.txs[t]) && Current(s, s.txs[o]);
    LocksExclude(s, t, o);
    InstalledElsewhere(s, s.txs[t], s.txs[o]);
  }

  lemma LocksExclude(s: System, t: Id, o: Id)
    requires LocksHeld(s) && t in s.txs && o in s.txs && o != t
    ensures HoldsUser(s.txs[t]) && HoldsUser(s.txs[o]) ==> s.txs[o].user != s.txs[t].user
    ensures HoldsFile(s.txs[t]) && HoldsFile(s.txs[o]) ==> s.txs[o].fileId != s.txs[t].fileId
  {
  }

  lemma InstalledElsewhere(s: System, tx: Tx, other: Tx)
    requires Current(s, tx) && Current(s, other)
    requires HoldsUser(tx) && HoldsUser(other) ==> other.user != tx.user
    requires HoldsFile(tx) && HoldsFile(other) ==> other.fileId != tx.fileId
    requires tx.SaveCharged? ==> tx.id !in s.files
    ensures Current(Install(s, tx), other)
  {
  }

  lemma CommitKeeps(s: System, t: Id)
    requires Invariant(s) && Enabled(s, Commit(t))
    ensures Invariant(Apply(s, Commit(t)))
  {
    var m := Install(s, s.txs[t]);
    InstallKeepsSums(s, t);
    forall o | o in s.txs && o != t ensures Current(m, m.txs[o]) {
      OthersStayCurrent(s, t, o);
    }
    EndInstalled(m, t);
  }

  lemma EndInstalled(m: System, t: Id)
    requires Conserved(m) && WithinQuota(m) && LocksHeld(m) && t in m.txs
    requires forall o | o in m.txs && o != t :: Current(m, m.txs[o])
    ensures Invariant(End(m, t))
  {
    var n := End(m, t);
    forall o | o in n.txs ensures Current(n, n.txs[o]) {
      assert Current(m, m.txs[o]);
    }
  }

  lemma ChargeKeeps(s: System, t: Id)
    requires Invariant(s) && Enabled(s, ChargeUsage(t))
    ensures Invariant(Apply(s, ChargeUsage(t)))
  {
    var n, tx := Apply(s, ChargeUsage(t)), s.txs[t];
    if t in n.txs {
      assert Current(s, tx);
      BytesNonnegative(s.files, tx.user);
      BytesNonnegative(s.created, tx.user);
      CheckedMeansFits(tx.seen, tx.size, s.users[tx.user].quota);
      UpdateKeeps(s, t, n.txs[t], n);
    } else {
      EndKeeps(s, t);
    }
  }

  lemma LockAndCheckKeeps(s: System, t: Id)
    requires Invariant(s) && Enabled(s, LockAndCheck(t))
    ensures Invariant(Apply(s, LockAndCheck(t)))
  {
    var n := Apply(s, LockAndCheck(t));
    if t in n.txs {
      UpdateKeeps(s, t, n.txs[t], n);
    } else {
      EndKeeps(s, t);
    }
  }

  lemma InsertKeeps(s: System, t: Id, id: Id)
    requires Invariant(s) && Enabled(s, InsertRow(t, id))
    ensures Invariant(Apply(s, InsertRow(t, id)))
  {
    var n := Apply(s, InsertRow(t, id));
    assert Current(s, s.txs[t]);
    UpdateKeeps(s, t, n.txs[t], n);
  }

  lemma FetchKeeps(s: System, t: Id)
    requires Invariant(s) && Enabled(s, FetchFile(t))
    ensures Invariant(Apply(s, FetchFile(t)))
  {
    var n := Apply(s, FetchFile(t));
    assert Current(s, s.txs[t]);
    UpdateKeeps(s, t, n.txs[t], n);
  }

  lemma ReclaimKeeps(s: System, t: Id)
    requires Invariant(s) && Enabled(s, ReclaimUsage(t))
    ensures Invariant(Apply(s, ReclaimUsage(t)))
  {
    var n := Apply(s, ReclaimUsage(t));
    assert Current(s, s.txs[t]);
    EnoughToReclaim(s, t);
    UpdateKeeps(s, t, n.txs[t], n);
  }

  lemma ChargeDocumentKeeps(s: System, t: Id)
    requires Invariant(s) && Enabled(s, ChargeDocument(t))
    ensures Invariant(Apply(s, ChargeDocument(t)))
  {
    var n := Apply(s, ChargeDocument(t));
    if t in n.txs {
      UpdateKeeps(s, t, n.txs[t], n);
    } else {
      EndKeeps(s, t);
    }
  }

  lemma StepKeeps(s: System, a: Action)
    requires Invariant(s) && Enabled(s, a)
    ensures Invariant(Apply(s, a))
  {
    match a
    case Begin(t, start) => UpdateKeeps(s, t, start, Apply(s, a));
    case LockAndCheck(t) => LockAndCheckKeeps(s, t);
    case InsertRow(t, id) => InsertKeeps(s, t, id);
    case ChargeUsage(t) => ChargeKeeps(s, t);
    case FetchFile(t) => FetchKeeps(s, t);
    case ReclaimUsage(t) => ReclaimKeeps(s, t);
    case ChargeDocument(t) => ChargeDocumentKeeps(s, t);
    case Commit(t) => CommitKeeps(s, t);
    case Abort(t) => EndKeeps(s, t);
  }

  lemma StepLeavesNoLock(s: System, a: Action)
    requires NoOtherLocks(s) && Enabled(s, a)
    ensures NoOtherLocks(Apply(s, a))
  {
    var n, t := Apply(s, a), a.tx;
    if a.Commit? {
      EndLeavesNoLock(Install(s, s.txs[t]), t);
    } else if t !in n.txs {
      EndLeavesNoLock(s, t);
    } else {
      MoveLeavesNoLock(s, t, n.txs[t], n);
    }
  }

  lemma MoveLeavesNoLock(s: System, t: Id, tx: Tx, n: System)
    requires NoOtherLocks(s) && n.txs == s.txs[t := tx]
    requires n.userLock == s.userLock || (HoldsUser(tx) && n.userLock == s.userLock[tx.user := t])
    requires n.fileLock == s.fileLock || (HoldsFile(tx) && n.fileLock == s.fileLock[tx.fileId := t])
    requires t in s.txs && HoldsUser(s.txs[t]) ==> HoldsUser(tx) && tx.user == s.txs[t].user
    requires t in s.txs && HoldsFile(s.txs[t]) ==> HoldsFile(tx) && tx.fileId == s.txs[t].fileId
    ensures NoOtherLocks(n)
  {
  }

  lemma EndLeavesNoLock(s: System, t: Id)
    requires NoOtherLocks(s)
    ensures NoOtherLocks(End(s, t))
  {
  }

  // ---------------------------------------------------------------- runs

  datatype Run = Run(states: seq<System>, actions: seq<Action>)

  ghost predicate IsRun(r: Run) {
    && |r.states| == |r.actions| + 1
    && Initial(r.states[0])
    && forall i | 0 <= i < |r.actions| :: StepAt(r, i)
  }

  ghost predicate Initial(s: System) {
    && s.files == map[] && s.created == map[] && s.txs == map[] && s.userLock == map[] && s.fileLock == map[]
    && forall u | u in s.users :: s.users[u].used == 0
  }

  ghost predicate StepAt(r: Run, i: nat)
    requires |r.states| == |r.actions| + 1 && i < |r.actions|
  {
    Enabled(r.states[i], r.actions[i]) && r.states[i + 1] == Apply(r.states[i], r.actions[i])
  }

  lemma {:induction false} InvariantHolds(r: Run, k: nat)
    requires IsRun(r) && k <= |r.actions|
    ensures Invariant(r.states[k]) && NoOtherLocks(r.states[k])
  {
    if k == 0 {
      forall u | u in r.states[0].users ensures Bytes(r.states[0].files, u) == 0 && Bytes(r.states[0].created, u) == 0 {
        assert SizesOf(map[], u) == map[];
      }
    } else {
      InvariantHolds(r, k - 1);
      assert StepAt(r, k - 1);
      StepKeeps(r.states[k - 1], r.actions[k - 1]);
      StepLeavesNoLock(r.states[k - 1], r.actions[k - 1]);
    }
  }

  /** In every interleaving the clamp of Delete's UPDATE has nothing to clamp. */
  lemma ClampNeverActs(r: Run, k: nat, t: Id)
    requires IsRun(r) && k <= |r.actions|
    requires var s := r.states[k]; t in s.txs && s.txs[t].DeleteFetched? && s.txs[t].user in s.users
    ensures var s := r.states[k]; s.users[s.txs[t].user].used - s.txs[t].size >= 0
  {
    InvariantHolds(r, k);
    EnoughToReclaim(r.states[k], t);
  }

  /**
   * In every interleaving, a user's committed active file bytes never exceed the quota; a user who never created a
   * document has used at most the quota; and the account is exactly the files plus the documents ever created.
   */
  lemma QuotaSafety(r: Run, k: nat, user: Id)
    requires IsRun(r) && k <= |r.actions| && user in r.states[k].users
    ensures var s := r.states[k];
            && Bytes(s.files, user) <= Max(0, s.users[user].quota)
            && s.users[user].used == Bytes(s.files, user) + Bytes(s.created, user)
            && ((forall id | id in s.created :: s.created[id].user != user) ==>
                s.users[user].used <= Max(0, s.users[user].quota))
  {
    InvariantHolds(r, k);
    var s := r.states[k];
    if forall id | id in s.created :: s.created[id].user != user {
      assert SizesOf(s.created, user) == map[];
    }
  }

  // ---------------------------------------------------------------- the transactions of the ledger

  /** Tables of the ledger with these accounts, in which a Save may raise the counter of this row. */
  ghost predicate Serial(s: System, t: Tables, pick: Option<Id>) {
    t.users == s.users && (pick.Some? ==> pick.value in t.files && t.files[pick.value].refCount < MAX_INT32)
  }

  /** The locked check turns a Save away exactly when the serial transaction finds the quota exceeded. */
  lemma CheckIsSave(r: Run, k: nat, t: Id, l: Tables, key: ObjectKey, hash: Hash, newId: Id, pick: Option<Id>)
    requires IsRun(r) && k <= |r.actions| && Enabled(r.states[k], LockAndCheck(t)) && Serial(r.states[k], l, pick)
    ensures var tx := r.states[k].txs[t];
            t !in Apply(r.states[k], LockAndCheck(t)).txs <==>
            SaveTx(l, tx.user, key, hash, tx.size, newId, pick).1 == SaveFailed(QuotaExceeded)
  {
    InvariantHolds(r, k);
  }

  /** What passes the check fails later exactly when the serial transaction finds the column's range exceeded. */
  lemma ChargeIsSave(r: Run, k: nat, t: Id, l: Tables, key: ObjectKey, hash: Hash, pick: Option<Id>)
    requires IsRun(r) && k <= |r.actions| && Enabled(r.states[k], ChargeUsage(t)) && Serial(r.states[k], l, pick)
    ensures var tx := r.states[k].txs[t];
            t !in Apply(r.states[k], ChargeUsage(t)).txs <==>
            SaveTx(l, tx.user, key, hash, tx.size, tx.id, pick).1 == SaveFailed(OutOfRange)
  {
    InvariantHolds(r, k);
    assert Current(r.states[k], r.states[k].txs[t]);
  }

  /** A Save that commits charges its user exactly as the serial transaction does at that moment. */
  lemma CommitIsSave(r: Run, k: nat, t: Id, l: Tables, key: ObjectKey, hash: Hash, pick: Option<Id>)
    requires IsRun(r) && k <= |r.actions| && Enabled(r.states[k], Commit(t)) && r.states[k].txs[t].SaveCharged?
    requires Serial(r.states[k], l, pick)
    ensures var s, tx := r.states[k], r.states[k].txs[t];
            var (n, result) := SaveTx(l, tx.user, key, hash, tx.size, tx.id, pick);
            && result.Saved? && Apply(s, Commit(t)).users == n.users
            && Apply(s, Commit(t)).files == s.files[tx.id := Item(tx.user, tx.size)]
  {
    InvariantHolds(r, k);
    ChargedIsExact(r.states[k], t);
    FittingIsSaved(l, r.states[k].txs[t], key, hash, pick);
  }

  lemma FittingIsSaved(l: Tables, tx: Tx, key: ObjectKey, hash: Hash, pick: Option<Id>)
    requires tx.SaveCharged? && tx.user in l.users && l.users[tx.user].used >= 0
    requires tx.used == l.users[tx.user].used + tx.size <= MAX_INT64 && tx.used <= l.users[tx.user].quota
    requires pick.Some? ==> pick.value in l.files && l.files[pick.value].refCount < MAX_INT32
    ensures var (n, result) := SaveTx(l, tx.user, key, hash, tx.size, tx.id, pick);
            result.Saved? && n.users == SetUsed(l.users, tx.user, tx.used)
  {
  }

  lemma ChargedIsExact(s: System, t: Id)
    requires Invariant(s) && t in s.txs && (s.txs[t].SaveCharged? || s.txs[t].CreateCharged?)
    ensures s.txs[t].user in s.users && s.users[s.txs[t].user].used >= 0
    ensures s.txs[t].used == s.users[s.txs[t].user].used + s.txs[t].size <= MAX_INT64
    ensures s.txs[t].SaveCharged? ==> s.txs[t].used <= s.users[s.txs[t].user].quota
  {
    assert Current(s, s.txs[t]);
    BytesNonnegative(s.files, s.txs[t].user);
    BytesNonnegative(s.created, s.txs[t].user);
  }

  /** So does a Delete, for whatever row its LIMIT 1 returns. */
  lemma CommitIsDelete(r: Run, k: nat, t: Id, l: Tables, pick: Id)
    requires IsRun(r) && k <= |r.actions| && Enabled(r.states[k], Commit(t)) && r.states[k].txs[t].DeleteReclaimed?
    requires l.users == r.states[k].users && pick in l.files
    requires var tx := r.states[k].txs[t];
             Owned(l.files, tx.fileId, tx.user) && l.files[tx.fileId].size == tx.size
    ensures var s, tx := r.states[k], r.states[k].txs[t];
            && Apply(s, Commit(t)).users == DeleteTx(l, tx.fileId, tx.user, pick).0.users
            && Apply(s, Commit(t)).files == s.files - {tx.fileId}
  {
    InvariantHolds(r, k);
    ReclaimedIsExact(r.states[k], t);
    ReclaimedIsDeleted(l, r.states[k].txs[t], pick);
  }

  lemma ReclaimedIsDeleted(l: Tables, tx: Tx, pick: Id)
    requires tx.DeleteReclaimed? && tx.user in l.users && tx.used == l.users[tx.user].used - tx.size >= 0
    requires Owned(l.files, tx.fileId, tx.user) && l.files[tx.fileId].size == tx.size && pick in l.files
    ensures DeleteTx(l, tx.fileId, tx.user, pick).0.users == SetUsed(l.users, tx.user, tx.used)
  {
  }

  lemma ReclaimedIsExact(s: System, t: Id)
    requires Invariant(s) && t in s.txs && s.txs[t].DeleteReclaimed?
    ensures s.txs[t].user in s.users
    ensures s.txs[t].used == s.users[s.txs[t].user].used - s.txs[t].size >= 0
  {
    assert Current(s, s.txs[t]);
    BytesTake(s.files, s.txs[t].fileId, s.txs[t].user);
    BytesNonnegative(s.created, s.txs[t].user);
  }

  lemma ChargeDocumentFails(s: System, t: Id, l: Tables)
    requires Enabled(s, ChargeDocument(t)) && l.users == s.users
    ensures t !in Apply(s, ChargeDocument(t)).txs <==> !ChargeTx(l, s.txs[t].user, s.txs[t].size).1
  {
  }

  /** And so does the creation of a document, which is charged whatever the quota. */
  lemma CommitIsCharge(r: Run, k: nat, t: Id, l: Tables)
    requires IsRun(r) && k <= |r.actions| && Enabled(r.states[k], Commit(t)) && r.states[k].txs[t].CreateCharged?
    requires l.users == r.states[k].users
    ensures var s, tx := r.states[k], r.states[k].txs[t];
            && ChargeTx(l, tx.user, tx.size).1
            && Apply(s, Commit(t)).users == ChargeTx(l, tx.user, tx.size).0.users
            && Apply(s, Commit(t)).created == s.created[tx.id := Item(tx.user, tx.size)]
  {
    InvariantHolds(r, k);
    ChargedIsExact(r.states[k], t);
  }
}
