/**
 * Serial runs of the ledger's transactions, for every choice of LIMIT 1: what the reference counters guarantee
 * and what they do not, one key per hash, and conservation of the bytes charged to a user.
 */
module LedgerRuns {
  import opened Options
  import opened Keys
  import opened Sums
  import opened Ledger

  datatype Op =
    | CreateUser(user: Id, quota: int)
    | Save(user: Id, key: ObjectKey, hash: Hash, size: nat, newId: Id, found: Option<Id>)
    | Delete(fileId: Id, user: Id, pick: Id)
    | CreateDocument(user: Id, size: nat)
    | DeleteDocument

  /** Generated ids are new, and a pick is a row that LIMIT 1 may return. */
  ghost predicate Legal(t: Tables, op: Op) {
    match op
    case CreateUser(user, _) => user !in t.users
    case Save(_, _, hash, _, newId, found) => newId !in t.files && LimitOne(t.files, hash, found)
    case Delete(fileId, user, pick) => Owned(t.files, fileId, user) ==> Active(t.files, t.files[fileId].hash, pick)
    case _ => true
  }

  ghost function Next(t: Tables, op: Op): Tables
    requires Legal(t, op)
  {
    match op
    case CreateUser(user, quota) => t.(users := t.users[user := User(0, quota)])
    case Save(user, key, hash, size, newId, found) => SaveTx(t, user, key, hash, size, newId, found).0
    case Delete(fileId, user, pick) => DeleteTx(t, fileId, user, pick).0
    case CreateDocument(user, size) => ChargeTx(t, user, size).0
    case DeleteDocument => t
  }

  datatype Run = Run(states: seq<Tables>, ops: seq<Op>)

  ghost predicate IsRun(r: Run) {
    && |r.states| == |r.ops| + 1
    && r.states[0] == Tables(map[], map[])
    && forall i | 0 <= i < |r.ops| :: StepAt(r, i)
  }

  ghost predicate StepAt(r: Run, i: nat)
    requires |r.states| == |r.ops| + 1 && i < |r.ops|
  {
    Legal(r.states[i], r.ops[i]) && r.states[i + 1] == Next(r.states[i], r.ops[i])
  }

  // ---------------------------------------------------------------- reference counters

  /** The counters of the active rows of a hash. */
  ghost function Counters(files: map<Id, FileRow>, hash: Hash): map<Id, int> {
    map id | id in files && Active(files, hash, id) :: files[id].refCount
  }

  ghost predicate FreshSave(t: Tables, op: Op, hash: Hash)
    requires Legal(t, op)
  {
    op.Save? && op.hash == hash && op.found.None?
    && SaveTx(t, op.user, op.key, hash, op.size, op.newId, op.found).1.Saved?
  }

  /** This Delete removes a row of the hash and tells its caller to remove the object. */
  ghost predicate Releases(t: Tables, op: Op, hash: Hash)
    requires Legal(t, op)
  {
    op.Delete? && Owned(t.files, op.fileId, op.user) && t.files[op.fileId].hash == hash
    && DeleteTx(t, op.fileId, op.user, op.pick).1 == Deleted(t.files[op.fileId].key, true)
  }

  ghost predicate Balanced(c: map<Id, int>) {
    && |c| >= 1
    && (forall id | id in c :: c[id] >= 1)
    && Sum(c) <= 2 * |c| - 1
  }

  lemma CountersAfterSave(t: Tables, op: Op, hash: Hash)
    requires Legal(t, op) && op.Save?
    ensures var c, d := Counters(t.files, hash), Counters(Next(t, op).files, hash);
            if op.hash == hash && SaveTx(t, op.user, op.key, op.hash, op.size, op.newId, op.found).1.Saved? then
              op.newId !in c
              && match op.found
                 case None => c == map[] && d == map[op.newId := 1]
                 case Some(canon) => canon in c && d == c[canon := c[canon] + 1][op.newId := 1]
            else d == c
  {
    var c := Counters(t.files, hash);
    if op.found.None? && op.hash == hash {
      forall id ensures id !in c {
        assert !Active(t.files, hash, id);
      }
    }
  }

  lemma CountersAfterDelete(t: Tables, op: Op, hash: Hash)
    requires Legal(t, op) && op.Delete?
    ensures var c, d := Counters(t.files, hash), Counters(Next(t, op).files, hash);
            if Owned(t.files, op.fileId, op.user) && t.files[op.fileId].hash == hash then
              op.fileId in c && op.pick in c
              && d == if c[op.pick] <= 1 || op.pick == op.fileId then c - {op.fileId}
                      else (c - {op.fileId})[op.pick := c[op.pick] - 1]
            else d == c
  {
  }

  lemma CountersUnchanged(t: Tables, op: Op, hash: Hash)
    requires Legal(t, op) && !op.Save? && !op.Delete?
    ensures Counters(Next(t, op).files, hash) == Counters(t.files, hash)
  {
  }

  lemma BalancedStep(t: Tables, op: Op, hash: Hash)
    requires Legal(t, op) && Balanced(Counters(t.files, hash)) && !Releases(t, op, hash)
    ensures Balanced(Counters(Next(t, op).files, hash))
  {
    var c, d := Counters(t.files, hash), Counters(Next(t, op).files, hash);
    match op
    case Save(_, _, _, _, newId, found) =>
      CountersAfterSave(t, op, hash);
      if d != c {
        DedupBalanced(c, found.value, newId);
      }
    case Delete(fileId, user, pick) =>
      CountersAfterDelete(t, op, hash);
      if Owned(t.files, fileId, user) && t.files[fileId].hash == hash {
        assert c[pick] > 1;
        SoftDeleteBalanced(c, fileId, pick);
      }
    case _ => CountersUnchanged(t, op, hash);
  }

  /** A dedup hit adds 2 to the sum and 1 to the number of rows. */
  lemma DedupBalanced(c: map<Id, int>, canon: Id, newId: Id)
    requires Balanced(c) && canon in c && newId !in c
    ensures Balanced(c[canon := c[canon] + 1][newId := 1])
  {
    SumPut(c, canon, c[canon] + 1);
    SumPut(c[canon := c[canon] + 1], newId, 1);
    assert c[canon := c[canon] + 1].Keys == c.Keys;
    assert c[canon := c[canon] + 1][newId := 1].Keys == c.Keys + {newId};
  }

  /** A soft delete takes at least 2 from the sum, whichever of the rows carried the picked count. */
  lemma SoftDeleteBalanced(c: map<Id, int>, gone: Id, pick: Id)
    requires Balanced(c) && gone in c && pick in c && c[pick] > 1
    ensures Balanced(if pick == gone then c - {gone} else (c - {gone})[pick := c[pick] - 1])
  {
    var rest := c - {gone};
    SumTake(c, gone);
    SumPut(rest, pick, c[pick] - 1);
    SumAtLeast(rest, 1);
    assert rest.Keys == c.Keys - {gone};
    assert pick != gone ==> rest[pick := c[pick] - 1].Keys == rest.Keys;
  }

  /** Step i of the run is a fresh save of the hash. */
  ghost predicate FreshAt(r: Run, hash: Hash, i: nat)
    requires IsRun(r) && i < |r.ops|
  {
    StepAt(r, i) && FreshSave(r.states[i], r.ops[i], hash)
  }

  /** Step i of the run releases the object of the hash. */
  ghost predicate ReleaseAt(r: Run, hash: Hash, i: nat)
    requires IsRun(r) && i < |r.ops|
  {
    StepAt(r, i) && Releases(r.states[i], r.ops[i], hash)
  }

  lemma FreshSaveBalanced(r: Run, hash: Hash, i: nat)
    requires IsRun(r) && i < |r.ops| && FreshAt(r, hash, i)
    ensures Balanced(Counters(r.states[i + 1].files, hash))
  {
    CountersAfterSave(r.states[i], r.ops[i], hash);
    SumPut(map[], r.ops[i].newId, 1);
  }

  lemma StaysBalanced(r: Run, hash: Hash, i: nat)
    requires IsRun(r) && i < |r.ops| && !ReleaseAt(r, hash, i)
    requires Balanced(Counters(r.states[i].files, hash))
    ensures Balanced(Counters(r.states[i + 1].files, hash))
  {
    assert StepAt(r, i);
    BalancedStep(r.states[i], r.ops[i], hash);
  }

  /** Until the first release the counters are balanced, whatever rows LIMIT 1 returns. */
  lemma {:induction false} BalancedUntilRelease(r: Run, hash: Hash, i: nat, k: nat)
    requires IsRun(r) && i < k <= |r.ops| && FreshAt(r, hash, i)
    requires forall j | i < j < k :: !ReleaseAt(r, hash, j)
    ensures Balanced(Counters(r.states[k].files, hash))
    decreases k
  {
    if k == i + 1 {
      FreshSaveBalanced(r, hash, i);
    } else {
      BalancedUntilRelease(r, hash, i, k - 1);
      StaysBalanced(r, hash, k - 1);
    }
  }

  /**
   * From a fresh save until the first release, the counters of the N active rows sum to between N and 2N - 1,
   * each is at least 1 and none exceeds N.
   */
  lemma CounterBounds(r: Run, hash: Hash, i: nat, k: nat)
    requires IsRun(r) && i < k <= |r.ops| && FreshAt(r, hash, i)
    requires forall j | i < j < k :: !ReleaseAt(r, hash, j)
    ensures var c := Counters(r.states[k].files, hash);
            |c| >= 1 && |c| <= Sum(c) <= 2 * |c| - 1 && forall id | id in c :: 1 <= c[id] <= |c|
  {
    BalancedUntilRelease(r, hash, i, k);
    var c := Counters(r.states[k].files, hash);
    SumAtLeast(c, 1);
    forall id | id in c ensures c[id] <= |c| {
      SumTake(c, id);
      SumAtLeast(c - {id}, 1);
      assert (c - {id}).Keys == c.Keys - {id};
    }
  }

  /** No leaked object: once a fresh save's hash is left without an active row, some Delete since has released. */
  lemma NoLeak(r: Run, hash: Hash, i: nat, k: nat)
    requires IsRun(r) && i < k <= |r.ops| && FreshAt(r, hash, i)
    requires Counters(r.states[k].files, hash) == map[]
    ensures exists j | i < j < k :: ReleaseAt(r, hash, j)
  {
    if forall j | i < j < k :: !ReleaseAt(r, hash, j) {
      BalancedUntilRelease(r, hash, i, k);
    }
  }

  // ---------------------------------------------------------------- premature release

  /** The object is released although another active row of the hash still points at it. */
  ghost predicate Premature(t: Tables, op: Op)
    requires Legal(t, op)
  {
    op.Delete? && Owned(t.files, op.fileId, op.user)
    && var hash := t.files[op.fileId].hash;
       Releases(t, op, hash) && Counters(Next(t, op).files, hash) != map[]
  }

  /**
   * Whether a Delete can release prematurely, for some row LIMIT 1 may return: exactly when other active rows of
   * the hash exist and one of the active rows has a counter of at most 1.
   */
  lemma PrematureExactly(t: Tables, fileId: Id, user: Id)
    requires Owned(t.files, fileId, user)
    ensures var c := Counters(t.files, t.files[fileId].hash);
            (exists pick :: Legal(t, Delete(fileId, user, pick)) && Premature(t, Delete(fileId, user, pick)))
            <==> |c| >= 2 && exists id | id in c :: c[id] <= 1
  {
    var hash := t.files[fileId].hash;
    var c := Counters(t.files, hash);
    assert fileId in c;
    forall pick | pick in c
      ensures Legal(t, Delete(fileId, user, pick))
      ensures Premature(t, Delete(fileId, user, pick)) <==> |c| >= 2 && c[pick] <= 1
    {
      CountersAfterDelete(t, Delete(fileId, user, pick), hash);
      assert (c - {fileId}).Keys == c.Keys - {fileId};
      assert |(c - {fileId}).Keys| == |c.Keys| - 1;
      if c[pick] <= 1 {
        assert Counters(Next(t, Delete(fileId, user, pick)).files, hash) == c - {fileId};
      }
    }
    forall pick | Legal(t, Delete(fileId, user, pick)) ensures pick in c {
    }
    if |c| >= 2 && exists id | id in c :: c[id] <= 1 {
      var id :| id in c && c[id] <= 1;
      assert Legal(t, Delete(fileId, user, id)) && Premature(t, Delete(fileId, user, id));
    }
  }

  /** Three uploads of one hash by one user, then deletes of the row that holds count 3 and of another. */
  ghost function Demonstration(hash: Hash, key: ObjectKey): Run {
    var row := (count: int, deleted: bool) => FileRow("u", key, hash, 1, count, deleted);
    Run([Tables(map[], map[]),
         Tables(map["u" := User(0, 9)], map[]),
         Tables(map["u" := User(1, 9)], map["a" := row(1, false)]),
         Tables(map["u" := User(2, 9)], map["a" := row(2, false), "b" := row(1, false)]),
         Tables(map["u" := User(3, 9)], map["a" := row(3, false), "b" := row(1, false), "c" := row(1, false)]),
         Tables(map["u" := User(2, 9)], map["a" := row(2, true), "b" := row(1, false), "c" := row(1, false)]),
         Tables(map["u" := User(1, 9)], map["a" := row(2, true), "c" := row(1, false)])],
        [CreateUser("u", 9),
         Save("u", key, hash, 1, "a", None),
         Save("u", key, hash, 1, "b", Some("a")),
         Save("u", key, hash, 1, "c", Some("a")),
         Delete("a", "u", "a"),
         Delete("b", "u", "b")])
  }

  lemma DemonstrationSaves(hash: Hash, key: ObjectKey, i: nat)
    requires i < 4
    ensures StepAt(Demonstration(hash, key), i)
  {
  }

  lemma DemonstrationDeletes(hash: Hash, key: ObjectKey, i: nat)
    requires 4 <= i < 6
    ensures StepAt(Demonstration(hash, key), i)
  {
    var r := Demonstration(hash, key);
    assert r.states[i + 1].files == Next(r.states[i], r.ops[i]).files;
  }

  /** "An object is released only when no row uses it" is false of the code: the last row is still active. */
  lemma PrematureReleaseHappens(hash: Hash, key: ObjectKey)
    ensures var r := Demonstration(hash, key);
            IsRun(r) && StepAt(r, 5) && Premature(r.states[5], r.ops[5])
  {
    var r := Demonstration(hash, key);
    forall i | 0 <= i < |r.ops| ensures StepAt(r, i) {
      if i < 4 {
        DemonstrationSaves(hash, key, i);
      } else {
        DemonstrationDeletes(hash, key, i);
      }
    }
    assert "c" in Counters(r.states[6].files, hash);
  }

  // ---------------------------------------------------------------- one key per hash

  ghost predicate OneKey(files: map<Id, FileRow>) {
    forall id, other {:trigger files[id].key, files[other].key} |
      id in files && other in files && !files[id].deleted && !files[other].deleted
      && files[id].hash == files[other].hash :: files[id].key == files[other].key
  }

  lemma OneKeyStep(t: Tables, op: Op)
    requires Legal(t, op) && OneKey(t.files)
    ensures OneKey(Next(t, op).files)
  {
    if op.Save? {
      forall id | op.found.None? && id in t.files && !t.files[id].deleted ensures t.files[id].hash != op.hash {
        assert !Active(t.files, op.hash, id);
      }
    }
  }

  lemma {:induction false} OneKeyPerHash(r: Run, k: nat)
    requires IsRun(r) && k <= |r.ops|
    ensures OneKey(r.states[k].files)
  {
    if k > 0 {
      OneKeyPerHash(r, k - 1);
      assert StepAt(r, k - 1);
      OneKeyStep(r.states[k - 1], r.ops[k - 1]);
    }
  }

  /** The key a Delete returns is the key of every active row of the hash. */
  lemma ReleasedKeyIsShared(r: Run, k: nat, id: Id)
    requires IsRun(r) && k < |r.ops| && StepAt(r, k) && r.ops[k].Delete?
    requires var op, files := r.ops[k], r.states[k].files;
             Owned(files, op.fileId, op.user) && Active(files, files[op.fileId].hash, id)
    ensures DeleteTx(r.states[k], r.ops[k].fileId, r.ops[k].user, r.ops[k].pick).1.key == r.states[k].files[id].key
  {
    OneKeyPerHash(r, k);
  }

  // ---------------------------------------------------------------- conservation

  /** The sizes of the active rows of a user. */
  ghost function ActiveSizes(files: map<Id, FileRow>, user: Id): map<Id, int> {
    map id | id in files && !files[id].deleted && files[id].user == user :: files[id].size
  }

  /** The sizes of all documents the user has created in the first k steps; deleting one takes nothing away. */
  ghost function DocumentBytes(r: Run, user: Id, k: nat): nat
    requires IsRun(r) && k <= |r.ops|
  {
    if k == 0 then 0
    else
      var op := r.ops[k - 1];
      DocumentBytes(r, user, k - 1)
      + if op.CreateDocument? && op.user == user && ChargeTx(r.states[k - 1], user, op.size).1 then op.size else 0
  }

  ghost predicate OwnersExist(t: Tables) {
    forall id | id in t.files :: t.files[id].user in t.users
  }

  ghost function Used(t: Tables, user: Id): int {
    if user in t.users then t.users[user].used else 0
  }

  lemma SaveConserves(t: Tables, op: Op, user: Id)
    requires Legal(t, op) && op.Save?
    ensures Used(Next(t, op), user) - Used(t, user)
         == Sum(ActiveSizes(Next(t, op).files, user)) - Sum(ActiveSizes(t.files, user))
  {
    var a, b := ActiveSizes(t.files, user), ActiveSizes(Next(t, op).files, user);
    if Next(t, op) != t && op.user == user {
      assert b == a[op.newId := op.size];
      SumPut(a, op.newId, op.size);
    } else {
      assert b == a;
    }
  }

  /** A Delete gives back exactly the row's size: the user's account holds at least that much. */
  lemma DeleteConserves(t: Tables, op: Op, user: Id)
    requires Legal(t, op) && op.Delete? && OwnersExist(t)
    requires Used(t, user) >= Sum(ActiveSizes(t.files, user))
    ensures Used(Next(t, op), user) - Used(t, user)
         == Sum(ActiveSizes(Next(t, op).files, user)) - Sum(ActiveSizes(t.files, user))
    ensures op.user == user && Owned(t.files, op.fileId, user) ==> t.users[user].used >= t.files[op.fileId].size
  {
    var a, b := ActiveSizes(t.files, user), ActiveSizes(Next(t, op).files, user);
    SizesAfterDelete(t, op, user);
    if b != a {
      SumTake(a, op.fileId);
      SumAtLeast(b, 0);
    }
  }

  lemma SizesAfterDelete(t: Tables, op: Op, user: Id)
    requires Legal(t, op) && op.Delete?
    ensures var a, b := ActiveSizes(t.files, user), ActiveSizes(Next(t, op).files, user);
            if Owned(t.files, op.fileId, op.user) && op.user == user
            then op.fileId in a && a[op.fileId] == t.files[op.fileId].size && b == a - {op.fileId}
            else b == a
  {
  }

  /** storage_bytes_used is the active file bytes plus the bytes of every document ever created. */
  lemma {:induction false} Conservation(r: Run, user: Id, k: nat)
    requires IsRun(r) && k <= |r.ops|
    ensures OwnersExist(r.states[k])
    ensures Used(r.states[k], user) == Sum(ActiveSizes(r.states[k].files, user)) + DocumentBytes(r, user, k)
  {
    if k > 0 {
      var t, op := r.states[k - 1], r.ops[k - 1];
      Conservation(r, user, k - 1);
      assert StepAt(r, k - 1);
      match op
      case Save(_, _, _, _, _, _) => SaveConserves(t, op, user);
      case Delete(_, _, _) => DeleteConserves(t, op, user);
      case _ =>
    }
  }

  /** So the GREATEST(0, ...) of a Delete never takes effect. */
  lemma ClampNeverActs(r: Run, k: nat)
    requires IsRun(r) && k < |r.ops| && r.ops[k].Delete?
    requires Owned(r.states[k].files, r.ops[k].fileId, r.ops[k].user)
    ensures var t, op := r.states[k], r.ops[k];
            op.user in t.users && t.users[op.user].used - t.files[op.fileId].size >= 0
  {
    Conservation(r, r.ops[k].user, k);
    assert StepAt(r, k);
    DeleteConserves(r.states[k], r.ops[k], r.ops[k].user);
  }

  // ---------------------------------------------------------------- the quota

  /** In every state of every run the active files of a user fit the quota. */
  lemma {:induction false} FilesWithinQuota(r: Run, user: Id, k: nat)
    requires IsRun(r) && k <= |r.ops| && user in r.states[k].users
    ensures Sum(ActiveSizes(r.states[k].files, user)) <= Max(0, r.states[k].users[user].quota)
  {
    if k == 0 {
      return;
    }
    var t, op := r.states[k - 1], r.ops[k - 1];
    Conservation(r, user, k - 1);
    Conservation(r, user, k);
    assert StepAt(r, k - 1);
    SumAtLeast(ActiveSizes(t.files, user), 0);
    if user in t.users {
      FilesWithinQuota(r, user, k - 1);
      StepWithinQuota(t, op, user);
    }
  }

  lemma StepWithinQuota(t: Tables, op: Op, user: Id)
    requires Legal(t, op) && OwnersExist(t) && user in t.users
    requires t.users[user].used >= Sum(ActiveSizes(t.files, user)) >= 0
    requires Sum(ActiveSizes(t.files, user)) <= Max(0, t.users[user].quota)
    ensures user in Next(t, op).users && Next(t, op).users[user].quota == t.users[user].quota
    ensures Sum(ActiveSizes(Next(t, op).files, user)) <= Max(0, t.users[user].quota)
  {
    match op
    case Save(u, key, hash, size, newId, found) =>
      SaveConserves(t, op, user);
      if u == user {
        SaveExactly(t, u, key, hash, size, newId, found);
      }
    case Delete(fileId, u, _) =>
      DeleteConserves(t, op, user);
    case _ =>
  }

  // ---------------------------------------------------------------- compensation

  /** Deleting a fresh save at once takes the hard branch and restores both tables exactly. */
  lemma CompensationRestores(t: Tables, save: Op, undo: Op)
    requires Legal(t, save) && save.Save? && FreshSave(t, save, save.hash)
    requires t.users[save.user].used >= 0
    requires undo.Delete? && undo.fileId == save.newId && undo.user == save.user && Legal(Next(t, save), undo)
    ensures Releases(Next(t, save), undo, save.hash)
    ensures Next(Next(t, save), undo) == t
  {
    var s := Next(t, save);
    assert Owned(s.files, save.newId, save.user);
    assert !Active(t.files, save.hash, undo.pick);
    assert s.files - {save.newId} == t.files;
  }
}
