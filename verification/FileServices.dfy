/**
 * Uploads and deletes of files over the metadata ledger and the bucket: exactly when does every active row keep its
 * object, and when does the bucket hold nothing else.
 */
module FileServices {
  import opened Options
  import opened Keys
  import opened Sums
  import opened Ledger
  import opened LedgerRuns

  datatype Service = Service(t: Tables, bucket: set<ObjectKey>)

  datatype UploadResult = Uploaded(id: Id, duplicate: bool) | MetadataError(error: SaveError) | StorageError

  /**
   * `found` is the row LIMIT 1 returned to Save, `stored` whether the object upload succeeded, `undone` whether the
   * compensating delete of the metadata committed.
   */
  function UploadTx(s: Service, user: Id, hash: Hash, base: string, size: nat, newId: Id,
                    found: Option<Id>, stored: bool, undone: bool): (Service, UploadResult)
    requires newId !in s.t.files
    requires found.Some? ==> found.value in s.t.files
  {
    var key := BuildObjectKey(user, hash, base);
    var (t, saved) := SaveTx(s.t, user, key, hash, size, newId, found);
    match saved
    case SaveFailed(error) => (Service(t, s.bucket), MetadataError(error))
    case Saved(id, duplicate) =>
      if duplicate then (Service(t, s.bucket), Uploaded(id, true))
      else if stored then (Service(t, s.bucket + {key}), Uploaded(id, false))
      else if undone then (Service(DeleteTx(t, id, user, id).0, s.bucket), StorageError)
      else (Service(t, s.bucket), StorageError)
  }

  /** `removed` tells whether the store's delete, if one is issued, succeeds; its failure is only logged. */
  function RemoveTx(s: Service, fileId: Id, user: Id, pick: Id, removed: bool): (Service, bool)
    requires Owned(s.t.files, fileId, user) ==> pick in s.t.files
  {
    var (t, deleted) := DeleteTx(s.t, fileId, user, pick);
    match deleted
    case NotFound => (Service(t, s.bucket), false)
    case Deleted(key, release) => (Service(t, if release && removed then s.bucket - {key} else s.bucket), true)
  }

  /**
   * An upload reports an error of the metadata exactly when nothing was saved, an error of the store exactly when a new
   * content was saved and its object could not be stored, and success otherwise. On success the row of that id is
   * active and the caller's; it is a duplicate exactly when the hash had an active row, and otherwise its object is
   * stored. An error leaves files and bucket as they were, unless the compensation failed too.
   */
  lemma UploadExactly(s: Service, user: Id, hash: Hash, base: string, size: nat, newId: Id,
                      found: Option<Id>, stored: bool, undone: bool)
    requires newId !in s.t.files && LimitOne(s.t.files, hash, found)
    requires user in s.t.users ==> 0 <= s.t.users[user].used
    ensures var key := BuildObjectKey(user, hash, base);
            var saved := SaveTx(s.t, user, key, hash, size, newId, found).1;
            var (n, result) := UploadTx(s, user, hash, base, size, newId, found, stored, undone);
            var known := exists id :: Active(s.t.files, hash, id);
            && (forall e :: result == MetadataError(e) <==> saved == SaveFailed(e))
            && (result.StorageError? <==> saved.Saved? && !known && !stored)
            && (result.Uploaded? ==>
                  && result == Uploaded(newId, known)
                  && newId in n.t.files && !n.t.files[newId].deleted
                  && n.t.files[newId].user == user && n.t.files[newId].hash == hash && n.t.files[newId].size == size
                  && (if known then n.bucket == s.bucket
                      else n.t.files[newId].key == key && n.bucket == s.bucket + {key}))
            && (result.MetadataError? ==> n == s)
            && (result.StorageError? ==> n.bucket == s.bucket && if undone then n.t == s.t else newId in n.t.files)
  {
    SaveExactly(s.t, user, BuildObjectKey(user, hash, base), hash, size, newId, found);
    var save := Save(user, BuildObjectKey(user, hash, base), hash, size, newId, found);
    if FreshSave(s.t, save, hash) && !stored && undone {
      CompensationRestores(s.t, save, LedgerRuns.Delete(newId, user, newId));
    }
  }

  /**
   * A delete succeeds exactly on the caller's active rows. Then the row is no longer active, and its object is removed
   * exactly when the counter read is at most 1 and the store does not fail; otherwise nothing changes.
   */
  lemma RemoveExactly(s: Service, fileId: Id, user: Id, pick: Id, removed: bool)
    requires Owned(s.t.files, fileId, user) ==> pick in s.t.files
    ensures var (n, ok) := RemoveTx(s, fileId, user, pick, removed);
            && (ok <==> fileId in s.t.files && s.t.files[fileId].user == user && !s.t.files[fileId].deleted)
            && (!ok ==> n == s)
            && (ok ==>
                  && (fileId in n.t.files ==> n.t.files[fileId].deleted)
                  && n.bucket == if s.t.files[pick].refCount <= 1 && removed then s.bucket - {s.t.files[fileId].key}
                                 else s.bucket)
  {
    DeleteExactly(s.t, fileId, user, pick);
  }

  class FileService {
    const metadata: MetadataStore
    var bucket: set<ObjectKey>

    ghost function Contents(): Service
      reads this, metadata
    {
      Service(metadata.Contents(), bucket)
    }

    constructor (metadata: MetadataStore)
      ensures this.metadata == metadata && bucket == {}
    {
      this.metadata := metadata;
      this.bucket := {};
    }

    method Upload(user: Id, hash: Hash, base: string, size: nat, newId: Id, stored: bool, undone: bool)
      returns (result: UploadResult, ghost found: Option<Id>)
      requires newId !in metadata.files
      modifies this, metadata
      ensures LimitOne(old(metadata.files), hash, found)
      ensures (Contents(), result) == UploadTx(old(Contents()), user, hash, base, size, newId, found, stored, undone)
    {
      var key := BuildObjectKey(user, hash, base);
      var saved: SaveResult;
      saved, found := metadata.Save(user, key, hash, size, newId);
      if saved.SaveFailed? {
        return MetadataError(saved.error), found;
      }
      if !saved.duplicate {
        if !stored {
          if undone {
            assert forall id | id in old(metadata.files) :: !Active(old(metadata.files), hash, id);
            var _, onlyRow := metadata.Delete(saved.id, user);
            assert onlyRow == saved.id;
          }
          return StorageError, found;
        }
        bucket := bucket + {key};
      }
      result := Uploaded(saved.id, saved.duplicate);
    }

    method Delete(fileId: Id, user: Id, removed: bool) returns (ok: bool, ghost pick: Id)
      modifies this, metadata
      ensures Owned(old(metadata.files), fileId, user) ==>
              Active(old(metadata.files), old(metadata.files)[fileId].hash, pick)
      ensures (Contents(), ok) == RemoveTx(old(Contents()), fileId, user, pick, removed)
    {
      var deleted: DeleteResult;
      deleted, pick := metadata.Delete(fileId, user);
      if deleted.NotFound? {
        return false, pick;
      }
      if deleted.release && removed {
        bucket := bucket - {deleted.key};
      }
      return true, pick;
    }
  }

  // ---------------------------------------------------------------- runs

  datatype Call =
    | Upload(user: Id, hash: Hash, base: string, size: nat, newId: Id, found: Option<Id>, stored: bool, undone: bool)
    | Remove(fileId: Id, owner: Id, pick: Id, removed: bool)

  ghost predicate Possible(s: Service, call: Call) {
    match call
    case Upload(_, hash, _, _, newId, found, _, _) => newId !in s.t.files && LimitOne(s.t.files, hash, found)
    case Remove(fileId, owner, pick, _) =>
      Owned(s.t.files, fileId, owner) ==> Active(s.t.files, s.t.files[fileId].hash, pick)
  }

  ghost function Do(s: Service, call: Call): Service
    requires Possible(s, call)
  {
    match call
    case Upload(user, hash, base, size, newId, found, stored, undone) =>
      UploadTx(s, user, hash, base, size, newId, found, stored, undone).0
    case Remove(fileId, owner, pick, removed) => RemoveTx(s, fileId, owner, pick, removed).0
  }

  datatype History = History(states: seq<Service>, calls: seq<Call>)

  ghost predicate IsHistory(h: History) {
    && |h.states| == |h.calls| + 1
    && h.states[0].t.files == map[] && h.states[0].bucket == {}
    && forall i | 0 <= i < |h.calls| :: CallAt(h, i)
  }

  ghost predicate CallAt(h: History, i: nat)
    requires |h.states| == |h.calls| + 1 && i < |h.calls|
  {
    Possible(h.states[i], h.calls[i]) && h.states[i + 1] == Do(h.states[i], h.calls[i])
  }

  // ---------------------------------------------------------------- the carrier of the count

  /** One row holds the number of rows, all others hold 1. */
  ghost predicate Carried(c: map<Id, int>) {
    c == map[] || exists id :: IsCarrier(c, id)
  }

  ghost predicate IsCarrier(c: map<Id, int>, id: Id) {
    id in c && c[id] == |c| && forall other | other in c && other != id :: c[other] == 1
  }

  /** The row LIMIT 1 returned holds the count of its hash. */
  ghost predicate HoldsCount(files: map<Id, FileRow>, id: Id) {
    id in files && files[id].refCount == |Counters(files, files[id].hash)|
  }

  /**
   * LIMIT 1 returns the row that holds the count, that row is not deleted while two or more others are active, and a
   * compensating delete commits.
   */
  ghost predicate Disciplined(s: Service, call: Call) {
    match call
    case Upload(_, _, _, _, _, found, stored, undone) =>
      (found.Some? ==> HoldsCount(s.t.files, found.value)) && (stored || undone)
    case Remove(fileId, owner, pick, _) =>
      Owned(s.t.files, fileId, owner) ==>
        HoldsCount(s.t.files, pick) && (pick == fileId ==> |Counters(s.t.files, s.t.files[fileId].hash)| <= 2)
  }

  lemma DedupCarried(c: map<Id, int>, carrier: Id, newId: Id)
    requires IsCarrier(c, carrier) && newId !in c
    ensures IsCarrier(c[carrier := c[carrier] + 1][newId := 1], carrier)
  {
    assert c[carrier := c[carrier] + 1][newId := 1].Keys == c.Keys + {newId};
  }

  lemma SoftDeleteCarried(c: map<Id, int>, gone: Id, carrier: Id)
    requires IsCarrier(c, carrier) && gone in c && |c| >= 2
    requires carrier == gone ==> |c| == 2
    ensures Carried(if carrier == gone then c - {gone} else (c - {gone})[carrier := c[carrier] - 1])
  {
    var rest := c - {gone};
    assert rest.Keys == c.Keys - {gone};
    if carrier == gone {
      var other :| other in rest;
      assert rest.Keys == {other} by {
        assert |rest.Keys - {other}| == 0;
      }
      assert IsCarrier(rest, other);
    } else {
      var d := rest[carrier := c[carrier] - 1];
      assert d.Keys == rest.Keys;
      assert IsCarrier(d, carrier);
    }
  }

  lemma CarrierIsUnique(c: map<Id, int>, pick: Id)
    requires Carried(c) && pick in c && c[pick] == |c|
    ensures IsCarrier(c, pick)
  {
    var id :| IsCarrier(c, id);
    assert |c.Keys - {id}| == |c| - 1;
    assert pick != id ==> pick in c.Keys - {id};
  }

  // ---------------------------------------------------------------- agreement

  ghost predicate Live(files: map<Id, FileRow>, id: Id) {
    id in files && !files[id].deleted
  }

  ghost function LiveKeys(files: map<Id, FileRow>): set<ObjectKey> {
    set id | id in files && Live(files, id) :: files[id].key
  }

  /** Every active row's object is in the bucket. */
  ghost predicate Stored(s: Service) {
    LiveKeys(s.t.files) <= s.bucket
  }

  /** Another active row has the same object. */
  ghost predicate SharesKey(files: map<Id, FileRow>, id: Id)
    requires id in files
  {
    exists other: Id :: other != id && Live(files, other) && files[other].key == files[id].key
  }

  /**
   * The object is removed although another active row has it; or a new row is left without an object, its upload and
   * its compensation having failed.
   */
  ghost predicate Breaks(s: Service, call: Call)
    requires Possible(s, call)
  {
    match call
    case Upload(user, hash, base, _, _, _, stored, undone) =>
      FreshSave(s.t, Metadata(s, call), hash) && !stored && !undone && BuildObjectKey(user, hash, base) !in s.bucket
    case Remove(fileId, owner, pick, removed) =>
      Owned(s.t.files, fileId, owner) && removed && s.t.files[pick].refCount <= 1 && SharesKey(s.t.files, fileId)
  }

  /** The metadata step of a call whose compensation, if any, commits. */
  ghost function Metadata(s: Service, call: Call): Op {
    match call
    case Upload(user, hash, base, size, newId, found, _, _) =>
      Save(user, BuildObjectKey(user, hash, base), hash, size, newId, found)
    case Remove(fileId, owner, pick, _) => LedgerRuns.Delete(fileId, owner, pick)
  }

  /** An upload either leaves files and bucket as they were or performs its save, and stores what it stores. */
  lemma UploadOrNothing(s: Service, call: Call)
    requires Possible(s, call) && call.Upload?
    ensures Legal(s.t, Metadata(s, call))
    ensures || (Do(s, call).t.files == s.t.files && Do(s, call).bucket == s.bucket && !Breaks(s, call))
            || (Do(s, call).t == Next(s.t, Metadata(s, call)) && (call.found.None? ==> call.stored || !call.undone)
                && SaveTx(s.t, call.user, BuildObjectKey(call.user, call.hash, call.base), call.hash, call.size,
                          call.newId, call.found).1.Saved?
                && Do(s, call).bucket == s.bucket + if call.found.None? && call.stored
                                                    then {BuildObjectKey(call.user, call.hash, call.base)} else {})
  {
    var save := Metadata(s, call);
    if FreshSave(s.t, save, call.hash) && !call.stored {
      assert Next(s.t, save).files - {call.newId} == s.t.files;
    }
  }

  /** The keys in use after an upload that has performed its save. */
  lemma KeysAfterSave(t: Tables, op: Op)
    requires Legal(t, op) && op.Save?
    requires SaveTx(t, op.user, op.key, op.hash, op.size, op.newId, op.found).1.Saved?
    ensures LiveKeys(Next(t, op).files) == LiveKeys(t.files) + if op.found.None? then {op.key} else {}
  {
    var a, b := t.files, Next(t, op).files;
    assert forall id: Id | Live(b, id) && id != op.newId :: Live(a, id) && a[id].key == b[id].key;
    assert forall id: Id | Live(a, id) :: Live(b, id) && a[id].key == b[id].key;
    if op.found.Some? {
      assert Live(a, op.found.value) && b[op.newId].key == a[op.found.value].key;
    } else {
      assert Live(b, op.newId);
    }
  }

  ghost predicate OneLess(a: map<Id, FileRow>, b: map<Id, FileRow>, gone: Id) {
    && (forall id: Id :: Live(b, id) <==> Live(a, id) && id != gone)
    && (forall id: Id | Live(b, id) :: a[id].key == b[id].key)
  }

  lemma RowsAfterRemove(s: Service, call: Call)
    requires Possible(s, call) && call.Remove? && Owned(s.t.files, call.fileId, call.owner)
    ensures OneLess(s.t.files, Do(s, call).t.files, call.fileId)
    ensures Do(s, call).bucket == s.bucket - if s.t.files[call.pick].refCount <= 1 && call.removed
                                             then {s.t.files[call.fileId].key} else {}
  {
  }

  lemma KeysAfterLastRemove(a: map<Id, FileRow>, b: map<Id, FileRow>, gone: Id)
    requires OneLess(a, b, gone) && Live(a, gone)
    requires !SharesKey(a, gone)
    ensures LiveKeys(b) == LiveKeys(a) - {a[gone].key}
  {
    forall key | key in LiveKeys(a) && key != a[gone].key ensures key in LiveKeys(b) {
      var id: Id :| id in a && Live(a, id) && a[id].key == key;
      assert Live(b, id);
    }
  }

  lemma KeysAfterOtherRemove(a: map<Id, FileRow>, b: map<Id, FileRow>, gone: Id)
    requires OneLess(a, b, gone) && Live(a, gone)
    requires SharesKey(a, gone)
    ensures LiveKeys(b) == LiveKeys(a)
  {
    var other: Id :| other != gone && Live(a, other) && a[other].key == a[gone].key;
    forall key | key in LiveKeys(a) ensures key in LiveKeys(b) {
      var id: Id :| id in a && Live(a, id) && a[id].key == key;
      assert Live(b, if id == gone then other else id);
    }
  }

  lemma UploadBreaksExactly(s: Service, call: Call)
    requires Possible(s, call) && call.Upload? && Stored(s)
    ensures Stored(Do(s, call)) <==> !Breaks(s, call)
  {
    UploadOrNothing(s, call);
    if Do(s, call).t.files != s.t.files {
      KeysAfterSave(s.t, Metadata(s, call));
    }
  }

  lemma RemoveBreaksExactly(s: Service, call: Call)
    requires Possible(s, call) && call.Remove? && Stored(s)
    ensures Stored(Do(s, call)) <==> !Breaks(s, call)
  {
    if Owned(s.t.files, call.fileId, call.owner) {
      var a, b := s.t.files, Do(s, call).t.files;
      RowsAfterRemove(s, call);
      if SharesKey(a, call.fileId) {
        KeysAfterOtherRemove(a, b, call.fileId);
        assert a[call.fileId].key in LiveKeys(a);
      } else {
        KeysAfterLastRemove(a, b, call.fileId);
      }
    }
  }

  // ---------------------------------------------------------------- agreement over runs

  ghost predicate BreaksAt(h: History, i: nat)
    requires IsHistory(h) && i < |h.calls|
  {
    CallAt(h, i) && Breaks(h.states[i], h.calls[i])
  }

  lemma BreaksAtExactly(h: History, i: nat)
    requires IsHistory(h) && i < |h.calls| && Stored(h.states[i])
    ensures Stored(h.states[i + 1]) <==> !BreaksAt(h, i)
  {
    assert CallAt(h, i);
    if h.calls[i].Upload? {
      UploadBreaksExactly(h.states[i], h.calls[i]);
    } else {
      RemoveBreaksExactly(h.states[i], h.calls[i]);
    }
  }

  /** Whatever LIMIT 1 returns, every active row's object stays in the bucket exactly as long as no call breaks it. */
  lemma {:induction false} AgreementExactly(h: History, k: nat)
    requires IsHistory(h) && k <= |h.calls|
    ensures (forall j | 0 <= j <= k :: Stored(h.states[j])) <==> (forall i | 0 <= i < k :: !BreaksAt(h, i))
  {
    if k == 0 {
      assert Stored(h.states[0]);
    } else {
      AgreementExactly(h, k - 1);
      if forall j | 0 <= j < k :: Stored(h.states[j]) {
        BreaksAtExactly(h, k - 1);
      }
    }
  }

  // ---------------------------------------------------------------- nothing else in the bucket

  /** Each hash has no active row, or its counters are those of a hash that has not been released. */
  ghost predicate Settled(files: map<Id, FileRow>) {
    forall hash: Hash :: Settles(Counters(files, hash))
  }

  ghost predicate Settles(c: map<Id, int>) {
    c == map[] || Balanced(c)
  }

  lemma SaveSettles(t: Tables, op: Op, hash: Hash)
    requires Legal(t, op) && op.Save? && Settles(Counters(t.files, hash))
    ensures Settles(Counters(Next(t, op).files, hash))
  {
    var c := Counters(t.files, hash);
    CountersAfterSave(t, op, hash);
    if c == map[] {
      SumPut(map[], op.newId, 1);
    } else {
      BalancedStep(t, op, hash);
    }
  }

  /** With one key per hash, a second active row of the hash shares the object. */
  lemma OthersShareKey(files: map<Id, FileRow>, fileId: Id)
    requires Live(files, fileId) && OneKey(files)
    ensures |Counters(files, files[fileId].hash)| >= 1
    ensures |Counters(files, files[fileId].hash)| >= 2 ==> SharesKey(files, fileId)
  {
    var c := Counters(files, files[fileId].hash);
    assert fileId in c.Keys;
    assert |c.Keys - {fileId}| == |c| - 1;
    if |c| >= 2 {
      var id :| id in c.Keys - {fileId};
      assert Live(files, id) && files[id].key == files[fileId].key;
    }
  }

  lemma RemoveSettles(s: Service, call: Call, hash: Hash)
    requires Possible(s, call) && call.Remove? && call.removed && !Breaks(s, call) && OneKey(s.t.files)
    requires Settles(Counters(s.t.files, hash))
    ensures Settles(Counters(Do(s, call).t.files, hash))
  {
    var c, op := Counters(s.t.files, hash), Metadata(s, call);
    CountersAfterDelete(s.t, op, hash);
    if Releases(s.t, op, hash) {
      OthersShareKey(s.t.files, call.fileId);
      assert |c.Keys - {call.fileId}| == |c| - 1;
      assert (c - {call.fileId}).Keys == c.Keys - {call.fileId};
    } else if c != map[] {
      BalancedStep(s.t, op, hash);
    }
  }

  lemma StaysSettled(s: Service, call: Call)
    requires Possible(s, call) && Settled(s.t.files) && OneKey(s.t.files) && !Breaks(s, call)
    requires call.Remove? ==> call.removed
    ensures Settled(Do(s, call).t.files)
  {
    forall hash: Hash ensures Settles(Counters(Do(s, call).t.files, hash)) {
      assert Settles(Counters(s.t.files, hash));
      if call.Upload? {
        UploadOrNothing(s, call);
        SaveSettles(s.t, Metadata(s, call), hash);
      } else {
        RemoveSettles(s, call, hash);
      }
    }
  }

  lemma UploadStaysExact(s: Service, call: Call)
    requires Possible(s, call) && call.Upload? && !Breaks(s, call) && s.bucket == LiveKeys(s.t.files)
    ensures Do(s, call).bucket == LiveKeys(Do(s, call).t.files)
  {
    UploadOrNothing(s, call);
    if Do(s, call).t.files != s.t.files {
      KeysAfterSave(s.t, Metadata(s, call));
    }
  }

  lemma RemoveStaysExact(s: Service, call: Call)
    requires Possible(s, call) && call.Remove? && call.removed && !Breaks(s, call) && s.bucket == LiveKeys(s.t.files)
    requires OneKey(s.t.files) && Settled(s.t.files)
    ensures Do(s, call).bucket == LiveKeys(Do(s, call).t.files)
  {
    if Owned(s.t.files, call.fileId, call.owner) {
      var a, b := s.t.files, Do(s, call).t.files;
      var c := Counters(a, a[call.fileId].hash);
      RowsAfterRemove(s, call);
      OthersShareKey(a, call.fileId);
      if a[call.pick].refCount <= 1 {
        KeysAfterLastRemove(a, b, call.fileId);
      } else {
        assert Settles(c) && call.fileId in c && call.pick in c;
        if |c| == 1 {
          OnlyRowCountsOne(c, call.pick);
        }
        KeysAfterOtherRemove(a, b, call.fileId);
      }
    }
  }

  lemma OnlyRowCountsOne(c: map<Id, int>, pick: Id)
    requires Balanced(c) && |c| == 1 && pick in c
    ensures c[pick] == 1
  {
    SumTake(c, pick);
    assert (c - {pick}).Keys == c.Keys - {pick};
    assert |c.Keys - {pick}| == 0;
  }

  lemma StaysOneKey(s: Service, call: Call)
    requires Possible(s, call) && OneKey(s.t.files)
    ensures OneKey(Do(s, call).t.files)
  {
    if call.Upload? {
      UploadOrNothing(s, call);
    }
    OneKeyStep(s.t, Metadata(s, call));
  }

  /** If moreover no removal fails, the bucket holds nothing but the active rows' objects. */
  lemma {:induction false} NothingElseStored(h: History, k: nat)
    requires IsHistory(h) && k <= |h.calls|
    requires forall i | 0 <= i < k :: !BreaksAt(h, i) && (h.calls[i].Remove? ==> h.calls[i].removed)
    ensures OneKey(h.states[k].t.files) && Settled(h.states[k].t.files)
    ensures h.states[k].bucket == LiveKeys(h.states[k].t.files)
  {
    if k == 0 {
      assert forall hash: Hash :: Counters(h.states[0].t.files, hash) == map[];
    } else {
      var s, call := h.states[k - 1], h.calls[k - 1];
      NothingElseStored(h, k - 1);
      assert !BreaksAt(h, k - 1) && CallAt(h, k - 1);
      StaysOneKey(s, call);
      StaysSettled(s, call);
      if call.Upload? {
        UploadStaysExact(s, call);
      } else {
        RemoveStaysExact(s, call);
      }
    }
  }

  // ---------------------------------------------------------------- a discipline that breaks nothing

  lemma SaveCarries(t: Tables, op: Op, hash: Hash)
    requires Legal(t, op) && op.Save? && (op.found.Some? ==> HoldsCount(t.files, op.found.value))
    requires Carried(Counters(t.files, hash))
    ensures Carried(Counters(Next(t, op).files, hash))
  {
    var c, d := Counters(t.files, hash), Counters(Next(t, op).files, hash);
    CountersAfterSave(t, op, hash);
    if d != c {
      if op.found.Some? {
        CarrierIsUnique(c, op.found.value);
        DedupCarried(c, op.found.value, op.newId);
      } else {
        assert IsCarrier(d, op.newId);
      }
    }
  }

  lemma UploadCarries(s: Service, call: Call, hash: Hash)
    requires Possible(s, call) && Disciplined(s, call) && call.Upload?
    requires Carried(Counters(s.t.files, hash))
    ensures Carried(Counters(Do(s, call).t.files, hash))
  {
    UploadOrNothing(s, call);
    SaveCarries(s.t, Metadata(s, call), hash);
  }

  lemma RemoveCarries(s: Service, call: Call, hash: Hash)
    requires Possible(s, call) && Disciplined(s, call) && call.Remove?
    requires Carried(Counters(s.t.files, hash))
    ensures Carried(Counters(Do(s, call).t.files, hash))
  {
    var c, op := Counters(s.t.files, hash), Metadata(s, call);
    CountersAfterDelete(s.t, op, hash);
    if Owned(s.t.files, call.fileId, call.owner) && s.t.files[call.fileId].hash == hash {
      CarrierIsUnique(c, call.pick);
      if |c| == 1 {
        assert |c.Keys| == 1 && |c.Keys - {call.fileId}| == 0;
        assert c - {call.fileId} == map[];
      } else {
        SoftDeleteCarried(c, call.fileId, call.pick);
      }
    }
  }

  /** Rows of known hashes, keyed under their own hash, one key per hash. */
  ghost predicate Keyed(files: map<Id, FileRow>, hashes: set<Hash>) {
    && OneKey(files)
    && (forall id: Id | Live(files, id) ::
          files[id].hash in hashes && files[id].key.File? && files[id].key.prefix == files[id].hash[..16])
  }

  /** No two of the hashes share their first sixteen digits, which is all that an object key holds of them. */
  ghost predicate PrefixesDistinct(hashes: set<Hash>) {
    forall g, h | g in hashes && h in hashes && g[..16] == h[..16] :: g == h
  }

  lemma {:induction false} AlwaysKeyed(h: History, hashes: set<Hash>, k: nat)
    requires IsHistory(h) && k <= |h.calls|
    requires forall i | 0 <= i < k :: h.calls[i].Upload? ==> h.calls[i].hash in hashes
    ensures Keyed(h.states[k].t.files, hashes)
  {
    if k > 0 {
      AlwaysKeyed(h, hashes, k - 1);
      assert CallAt(h, k - 1);
      StaysOneKey(h.states[k - 1], h.calls[k - 1]);
      if h.calls[k - 1].Upload? {
        UploadOrNothing(h.states[k - 1], h.calls[k - 1]);
      }
    }
  }

  /** Then an object is shared exactly when the hash has a second active row. */
  lemma SharedExactly(files: map<Id, FileRow>, hashes: set<Hash>, fileId: Id)
    requires Live(files, fileId) && Keyed(files, hashes) && PrefixesDistinct(hashes)
    ensures SharesKey(files, fileId) <==> |Counters(files, files[fileId].hash)| >= 2
  {
    var c := Counters(files, files[fileId].hash);
    OthersShareKey(files, fileId);
    if id: Id :| id != fileId && Live(files, id) && files[id].key == files[fileId].key {
      assert {id, fileId} <= c.Keys && |c.Keys - {id, fileId}| == |c| - 2;
    }
  }

  lemma DisciplineBreaksNothing(s: Service, call: Call, hashes: set<Hash>)
    requires Possible(s, call) && Disciplined(s, call) && Keyed(s.t.files, hashes) && PrefixesDistinct(hashes)
    ensures !Breaks(s, call)
  {
    if call.Remove? && Owned(s.t.files, call.fileId, call.owner) {
      SharedExactly(s.t.files, hashes, call.fileId);
    }
  }

  ghost predicate AllCarried(files: map<Id, FileRow>) {
    forall hash: Hash :: Carried(Counters(files, hash))
  }

  /**
   * If LIMIT 1 always returns the row that holds the count, and that row is never deleted beside two or more others,
   * then each hash's count stays on one row, every active row's object is in the bucket, and if no removal fails the
   * bucket holds exactly those objects.
   */
  lemma {:induction false} StoreAgreement(h: History, hashes: set<Hash>, k: nat)
    requires IsHistory(h) && k <= |h.calls| && PrefixesDistinct(hashes)
    requires forall i | 0 <= i < k :: h.calls[i].Upload? ==> h.calls[i].hash in hashes
    requires forall i | 0 <= i < k :: CallAt(h, i) && Disciplined(h.states[i], h.calls[i])
    ensures AllCarried(h.states[k].t.files)
    ensures Stored(h.states[k])
    ensures (forall i | 0 <= i < k :: h.calls[i].Remove? ==> h.calls[i].removed) ==>
            h.states[k].bucket == LiveKeys(h.states[k].t.files)
  {
    StaysCarried(h, k);
    forall i | 0 <= i < k ensures !BreaksAt(h, i) {
      assert CallAt(h, i) && Disciplined(h.states[i], h.calls[i]);
      AlwaysKeyed(h, hashes, i);
      DisciplineBreaksNothing(h.states[i], h.calls[i], hashes);
    }
    AgreementExactly(h, k);
    if forall i | 0 <= i < k :: h.calls[i].Remove? ==> h.calls[i].removed {
      NothingElseStored(h, k);
    }
  }

  lemma {:induction false} StaysCarried(h: History, k: nat)
    requires IsHistory(h) && k <= |h.calls|
    requires forall i | 0 <= i < k :: CallAt(h, i) && Disciplined(h.states[i], h.calls[i])
    ensures AllCarried(h.states[k].t.files)
  {
    if k == 0 {
      assert forall hash: Hash :: Counters(h.states[0].t.files, hash) == map[];
    } else {
      var s, call := h.states[k - 1], h.calls[k - 1];
      StaysCarried(h, k - 1);
      assert CallAt(h, k - 1);
      forall hash: Hash ensures Carried(Counters(h.states[k].t.files, hash)) {
        assert Carried(Counters(s.t.files, hash));
        if call.Upload? {
          UploadCarries(s, call, hash);
        } else {
          RemoveCarries(s, call, hash);
        }
      }
    }
  }

  // ---------------------------------------------------------------- losing the count

  /**
   * Deleting the row that holds the count while at least two others are active leaves the hash without its count:
   * whatever LIMIT 1 returns to the next delete of the hash, it takes the object away from the rows that remain.
   */
  lemma LosingTheCarrierBreaks(s: Service, first: Call, second: Call)
    requires Possible(s, first) && first.Remove? && Owned(s.t.files, first.fileId, first.owner)
    requires first.pick == first.fileId
    requires var c := Counters(s.t.files, s.t.files[first.fileId].hash);
             IsCarrier(c, first.fileId) && |c| >= 3 && OneKey(s.t.files)
    requires var n := Do(s, first);
             && Possible(n, second) && second.Remove? && second.removed && Owned(n.t.files, second.fileId, second.owner)
             && n.t.files[second.fileId].hash == s.t.files[first.fileId].hash
    ensures Breaks(Do(s, first), second) && !Stored(Do(Do(s, first), second))
  {
    var hash := s.t.files[first.fileId].hash;
    var n := Do(s, first);
    var c, d := Counters(s.t.files, hash), Counters(n.t.files, hash);
    CountersAfterDelete(s.t, Metadata(s, first), hash);
    OneKeyStep(s.t, Metadata(s, first));
    assert d.Keys == c.Keys - {first.fileId};
    assert d[second.pick] == 1;
    RemoveBreaks(n, second);
  }

  lemma RemoveBreaks(s: Service, call: Call)
    requires Possible(s, call) && call.Remove? && call.removed && Owned(s.t.files, call.fileId, call.owner)
    requires OneKey(s.t.files) && s.t.files[call.pick].refCount <= 1
    requires |Counters(s.t.files, s.t.files[call.fileId].hash)| >= 2
    ensures Breaks(s, call) && !Stored(Do(s, call))
  {
    var a := s.t.files;
    var c := Counters(a, a[call.fileId].hash);
    assert call.fileId in c.Keys && |c.Keys - {call.fileId}| > 0;
    var id :| id in c.Keys - {call.fileId};
    RowsAfterRemove(s, call);
    assert Live(Do(s, call).t.files, id);
    assert a[call.fileId].key in LiveKeys(Do(s, call).t.files);
  }
}
