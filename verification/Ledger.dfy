/**
 * Users, quotas and reference-counted file rows. The tables are maps; `SaveTx` and `DeleteTx` say what one
 * transaction does to them, given which row an unordered LIMIT 1 returned, and `MetadataStore` runs it
 * statement by statement with rollback.
 */
module Ledger {
  import opened Options
  import opened Keys

  const MAX_INT64: int := 0x7FFF_FFFF_FFFF_FFFF
  const MAX_INT32: int := 0x7FFF_FFFF

  /** Addition of two int64 values in Go. */
  function Wrap64(x: int): int {
    (x + MAX_INT64 + 1) % (2 * (MAX_INT64 + 1)) - (MAX_INT64 + 1)
  }

  datatype User = User(used: int, quota: int)

  datatype FileRow = FileRow(user: Id, key: ObjectKey, hash: Hash, size: nat, refCount: int, deleted: bool)

  datatype Tables = Tables(users: map<Id, User>, files: map<Id, FileRow>)

  datatype SaveError = NoSuchUser | QuotaExceeded | OutOfRange

  datatype SaveResult = Saved(id: Id, duplicate: bool) | SaveFailed(error: SaveError)

  datatype DeleteResult = Deleted(key: ObjectKey, release: bool) | NotFound

  predicate Active(files: map<Id, FileRow>, hash: Hash, id: Id) {
    id in files && files[id].hash == hash && !files[id].deleted
  }

  /** What `WHERE sha256 = hash AND deleted_at IS NULL LIMIT 1` may return: any active row, none if there is none. */
  ghost predicate LimitOne(files: map<Id, FileRow>, hash: Hash, pick: Option<Id>) {
    match pick
    case Some(id) => Active(files, hash, id)
    case None => forall id :: !Active(files, hash, id)
  }

  lemma SomePick(files: map<Id, FileRow>, hash: Hash)
    ensures exists pick :: LimitOne(files, hash, pick)
  {
    if id :| Active(files, hash, id) {
      assert LimitOne(files, hash, Some(id));
    } else {
      assert LimitOne(files, hash, None);
    }
  }

  /** One Save transaction: the tables it commits, or the same tables and the error. */
  function SaveTx(t: Tables, user: Id, key: ObjectKey, hash: Hash, size: nat, newId: Id, pick: Option<Id>)
    : (Tables, SaveResult)
    requires pick.Some? ==> pick.value in t.files
  {
    if user !in t.users then (t, SaveFailed(NoSuchUser))
    else if Wrap64(t.users[user].used + size) > t.users[user].quota then (t, SaveFailed(QuotaExceeded))
    else if pick.Some? && t.files[pick.value].refCount >= MAX_INT32 then (t, SaveFailed(OutOfRange))
    else if t.users[user].used + size > MAX_INT64 then (t, SaveFailed(OutOfRange))
    else
      var charged := t.users[user := t.users[user].(used := t.users[user].used + size)];
      match pick
      case Some(canon) =>
        var raised := t.files[canon := t.files[canon].(refCount := t.files[canon].refCount + 1)];
        var row := FileRow(user, t.files[canon].key, hash, size, 1, false);
        (Tables(charged, raised[newId := row]), Saved(newId, true))
      case None =>
        (Tables(charged, t.files[newId := FileRow(user, key, hash, size, 1, false)]), Saved(newId, false))
  }

  function Max(a: int, b: int): int {
    if a > b then a else b
  }

  /** `storage_bytes_used = GREATEST(0, storage_bytes_used - size) WHERE id = user` */
  function Reclaim(users: map<Id, User>, user: Id, size: nat): map<Id, User> {
    if user in users then users[user := users[user].(used := Max(0, users[user].used - size))] else users
  }

  /** The row Delete fetches: active and the caller's own. */
  predicate Owned(files: map<Id, FileRow>, fileId: Id, user: Id) {
    fileId in files && files[fileId].user == user && !files[fileId].deleted
  }

  /** One Delete transaction, given the row of the same hash that LIMIT 1 returned. */
  function DeleteTx(t: Tables, fileId: Id, user: Id, pick: Id): (Tables, DeleteResult)
    requires Owned(t.files, fileId, user) ==> pick in t.files
  {
    if !Owned(t.files, fileId, user) then (t, NotFound)
    else
      var f := t.files[fileId];
      var users := Reclaim(t.users, user, f.size);
      if t.files[pick].refCount <= 1 then
        (Tables(users, t.files - {fileId}), Deleted(f.key, true))
      else
        var soft := t.files[fileId := f.(deleted := true)];
        (Tables(users, soft[pick := soft[pick].(refCount := soft[pick].refCount - 1)]), Deleted(f.key, false))
  }

  /** CreateDocument's charge: no quota check, only the column's range. */
  function ChargeTx(t: Tables, user: Id, size: nat): (Tables, bool) {
    if user !in t.users || t.users[user].used + size > MAX_INT64 then (t, false)
    else (t.(users := t.users[user := t.users[user].(used := t.users[user].used + size)]), true)
  }

  // ---------------------------------------------------------------- what one transaction does

  /** The same rows of the users table, but that this user has used `delta` more. */
  ghost predicate ChargedBy(before: map<Id, User>, after: map<Id, User>, user: Id, delta: int) {
    && after.Keys == before.Keys
    && forall u | u in before ::
         after[u].quota == before[u].quota && after[u].used == before[u].used + if u == user then delta else 0
  }

  /**
   * A Save succeeds exactly when its user exists, the bytes stay within the quota and the column, and the counter it
   * raises stays within its column; a sum that leaves the column is compared with the quota as the negative number it
   * wraps to. It then adds one row with counter 1, under the object of the row it has found if
   * any, raises that row's counter, and charges the user; otherwise it changes nothing and says why.
   */
  lemma SaveExactly(t: Tables, user: Id, key: ObjectKey, hash: Hash, size: nat, newId: Id, pick: Option<Id>)
    requires newId !in t.files && (pick.Some? ==> pick.value in t.files)
    requires user in t.users ==> 0 <= t.users[user].used
    ensures var (n, result) := SaveTx(t, user, key, hash, size, newId, pick);
            && (result == SaveFailed(NoSuchUser) <==> user !in t.users)
            && (result.SaveFailed? ==> n == t)
            && (user in t.users ==>
                  var used, quota := t.users[user].used + size, t.users[user].quota;
                  && (result.Saved? <==> used <= quota && used <= MAX_INT64
                                         && (pick.Some? ==> t.files[pick.value].refCount < MAX_INT32))
                  && (used <= MAX_INT64 ==> (result == SaveFailed(QuotaExceeded) <==> used > quota))
                  && (MAX_INT64 < used <= 2 * MAX_INT64 ==>
                        (result == SaveFailed(QuotaExceeded) <==> used - 0x1_0000_0000_0000_0000 > quota)))
            && (result.Saved? ==>
                  && result == Saved(newId, pick.Some?)
                  && ChargedBy(t.users, n.users, user, size)
                  && n.files.Keys == t.files.Keys + {newId}
                  && n.files[newId]
                     == FileRow(user, if pick.Some? then t.files[pick.value].key else key, hash, size, 1, false)
                  && forall id | id in t.files ::
                       n.files[id]
                       == t.files[id].(refCount := t.files[id].refCount + if pick == Some(id) then 1 else 0))
  {
  }

  /**
   * A Delete finds exactly the caller's active rows. It releases the object exactly when the counter it reads is at
   * most 1, and then the row goes; otherwise the row stays, soft-deleted, and that counter falls by one. Either way it
   * names the row's object and gives back the row's size.
   */
  lemma DeleteExactly(t: Tables, fileId: Id, user: Id, pick: Id)
    requires Owned(t.files, fileId, user) ==> pick in t.files
    ensures var (n, result) := DeleteTx(t, fileId, user, pick);
            if !(fileId in t.files && t.files[fileId].user == user && !t.files[fileId].deleted) then
              result == NotFound && n == t
            else
              && result == Deleted(t.files[fileId].key, t.files[pick].refCount <= 1)
              && (result.release ==> n.files == t.files - {fileId})
              && (!result.release ==>
                    && n.files.Keys == t.files.Keys
                    && forall id | id in t.files ::
                         n.files[id] == t.files[id].(deleted := id == fileId || t.files[id].deleted,
                                                     refCount := t.files[id].refCount - if id == pick then 1 else 0))
              && if user !in t.users then n.users == t.users
                 else
                   var used, size: int := t.users[user].used, t.files[fileId].size;
                   ChargedBy(t.users, n.users, user, if used >= size then -size else -used)
  {
  }

  class MetadataStore {
    var users: map<Id, User>
    var files: map<Id, FileRow>

    ghost function Contents(): Tables
      reads this
    {
      Tables(users, files)
    }

    constructor (users: map<Id, User>)
      ensures Contents() == Tables(users, map[])
    {
      this.users := users;
      this.files := map[];
    }

    method Save(user: Id, key: ObjectKey, hash: Hash, size: nat, newId: Id)
      returns (result: SaveResult, ghost pick: Option<Id>)
      requires newId !in files
      modifies this
      ensures LimitOne(old(files), hash, pick)
      ensures (Contents(), result) == SaveTx(old(Contents()), user, key, hash, size, newId, pick)
    {
      SomePick(files, hash);
      pick :| LimitOne(files, hash, pick);
      var usersBefore, filesBefore := users, files;
      if user !in users {
        return SaveFailed(NoSuchUser), pick;
      }
      var bytesUsed, quota := users[user].used, users[user].quota;
      if Wrap64(bytesUsed + size) > quota {
        return SaveFailed(QuotaExceeded), pick;
      }
      var canonical := FindActive(hash);
      pick := canonical;
      match canonical {
        case Some(canon) =>
          if files[canon].refCount >= MAX_INT32 {
            return SaveFailed(OutOfRange), pick;
          }
          files := files[canon := files[canon].(refCount := files[canon].refCount + 1)];
          files := files[newId := FileRow(user, files[canon].key, hash, size, 1, false)];
        case None =>
          files := files[newId := FileRow(user, key, hash, size, 1, false)];
      }
      if users[user].used + size > MAX_INT64 {
        users, files := usersBefore, filesBefore;
        return SaveFailed(OutOfRange), pick;
      }
      users := users[user := users[user].(used := users[user].used + size)];
      result := Saved(newId, canonical.Some?);
    }

    method FindActive(hash: Hash) returns (pick: Option<Id>)
      ensures LimitOne(files, hash, pick)
    {
      if exists id | id in files :: Active(files, hash, id) {
        var id :| id in files && Active(files, hash, id);
        pick := Some(id);
      } else {
        pick := None;
      }
    }

    method Delete(fileId: Id, user: Id) returns (result: DeleteResult, ghost pick: Id)
      modifies this
      ensures Owned(old(files), fileId, user) ==> Active(old(files), old(files)[fileId].hash, pick)
      ensures (Contents(), result) == DeleteTx(old(Contents()), fileId, user, pick)
    {
      pick := fileId;
      if !Owned(files, fileId, user) {
        return NotFound, pick;
      }
      var f := files[fileId];
      assert Active(files, f.hash, fileId);
      var canonId :| canonId in files && Active(files, f.hash, canonId);
      pick := canonId;
      var refCount := files[canonId].refCount;
      var release := false;
      if refCount <= 1 {
        files := files - {fileId};
        release := true;
      } else {
        files := files[fileId := f.(deleted := true)];
        files := files[canonId := files[canonId].(refCount := files[canonId].refCount - 1)];
      }
      if user in users {
        users := users[user := users[user].(used := Max(0, users[user].used - f.size))];
      }
      result := Deleted(f.key, release);
    }

    method Charge(user: Id, size: nat) returns (ok: bool)
      modifies this
      ensures (Contents(), ok) == ChargeTx(old(Contents()), user, size)
      ensures ok <==> user in old(users) && old(users)[user].used + size <= MAX_INT64
      ensures files == old(files) && users.Keys == old(users.Keys)
      ensures forall u | u in users ::
                && users[u].quota == old(users)[u].quota
                && users[u].used == old(users)[u].used + if ok && u == user then size else 0
    {
      if user !in users || users[user].used + size > MAX_INT64 {
        return false;
      }
      users := users[user := users[user].(used := users[user].used + size)];
      return true;
    }
  }
}
