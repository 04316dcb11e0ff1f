/**
 * The document protocol: uploads, extraction runs delivered any number of times, their page goroutines, watchdog
 * sweeps, deletions with their background cleanup and webhooks, in every interleaving of their statements.
 */
module Extraction {
  import opened Options
  import opened Keys
  import opened Documents
  import opened Worlds
  import F = FanOut

  // ---------------------------------------------------------------- the actors

  /** One DocumentService.Upload, after its row has been created; `pdf` is the page count of the content. */
  datatype Upload =
    | RowCreated(doc: Id, pdf: nat)
    | PutFailed(doc: Id)
    | OriginalStored(doc: Id)
    | PathSet(doc: Id)

  /** One execution of HandleExtractPages. */
  datatype Run =
    | Fetched(doc: Id, path: Option<ObjectKey>)
    | Downloaded(doc: Id, pdf: nat)
    | Extracting(doc: Id, fan: F.Fan)
    | Marking(doc: Id, total: nat)
    | Failing(doc: Id)

  /**
   * One DocumentService.DeleteDocument. `ready` and `clean` are histories: whether the document was ready when its
   * pages were listed; and whether it was and no run could store a page any more when its row was deleted. `failed` is
   * a history too: the objects whose removal has failed.
   */
  datatype Deletion =
    | Listed(doc: Id, user: Id, pages: seq<ObjectKey>, ready: bool)
    | Cleaning(doc: Id, remaining: seq<ObjectKey>, failed: set<ObjectKey>, clean: bool)

  datatype System = System(w: World, uploads: map<Id, Upload>, runs: map<Id, Run>, deletions: map<Id, Deletion>)

  /** `ok` is the outcome of the call the statement makes; ids of uploads, runs and deletions only name the actors. */
  datatype Action =
    | BeginUpload(id: Id, doc: Id, owner: Id, pdf: nat)
    | StoreOriginal(id: Id, ok: bool)
    | MarkUploadFailed(id: Id, ok: bool, message: string)
    | LinkOriginal(id: Id, ok: bool)
    | Enqueue(id: Id, accepted: bool)
    | Deliver(id: Id, doc: Id)
    | Download(id: Id, ok: bool)
    | CountPages(id: Id, ok: bool)
    | Fan(id: Id, step: F.Step, size: nat)
    | Join(id: Id)
    | MarkRun(id: Id, ok: bool, message: string)
    | Crash(id: Id)
    | ListForDelete(id: Id, doc: Id, user: Id)
    | DeleteRow(id: Id, ok: bool)
    | RemoveNext(id: Id, ok: bool)
    | RegisterWebhook(hook: Id, doc: Id)
    | Sweep(readAt: int)
    | Tick(to: int)
    | FileTraffic(key: ObjectKey, stored: bool)

  function PageNum(i: nat): nat {
    i + 1
  }

  /** A page goroutine that is about to save its row; the foreign key makes that fail once the document is gone. */
  ghost predicate RowRefused(s: System, f: F.Fan, doc: Id, step: F.Step) {
    step.Advance? && step.page < |f.pcs| && f.pcs[step.page].Uploaded? && !Exists(s.w, doc)
  }

  ghost predicate Enabled(s: System, a: Action) {
    match a
    case BeginUpload(id, doc, _, _) => id !in s.uploads && doc !in s.w.ever
    case StoreOriginal(id, _) => id in s.uploads && s.uploads[id].RowCreated?
    case MarkUploadFailed(id, _, _) => id in s.uploads && s.uploads[id].PutFailed?
    case LinkOriginal(id, _) => id in s.uploads && s.uploads[id].OriginalStored?
    case Enqueue(id, _) => id in s.uploads && s.uploads[id].PathSet?
    case Deliver(id, doc) => id !in s.runs && doc in s.w.queued
    case Download(id, ok) =>
      id in s.runs && s.runs[id].Fetched? && (ok ==> s.runs[id].path.Some? && Holds(s.w, s.runs[id].path.value))
    case CountPages(id, _) => id in s.runs && s.runs[id].Downloaded?
    case Fan(id, step, _) =>
      id in s.runs && s.runs[id].Extracting? && F.Enabled(s.runs[id].fan, step)
      && (RowRefused(s, s.runs[id].fan, s.runs[id].doc, step) ==> !step.ok)
    case Join(id) => id in s.runs && s.runs[id].Extracting? && F.Joined(s.runs[id].fan)
    case MarkRun(id, _, _) => id in s.runs && (s.runs[id].Marking? || s.runs[id].Failing?)
    case Crash(id) => id in s.runs
    case ListForDelete(id, _, _) => id !in s.deletions
    case DeleteRow(id, _) => id in s.deletions && s.deletions[id].Listed?
    case RemoveNext(id, _) => id in s.deletions && s.deletions[id].Cleaning? && s.deletions[id].remaining != []
    case RegisterWebhook(_, _) => true
    case Sweep(readAt) => s.w.lastSweep <= readAt <= s.w.now
    case Tick(to) => s.w.now <= to
    case FileTraffic(key, _) => key.File?
  }

  ghost function Apply(s: System, a: Action): System
    requires Enabled(s, a)
  {
    match a
    case BeginUpload(id, doc, owner, pdf) =>
      s.(w := Worlds.Insert(s.w, doc, owner), uploads := s.uploads[id := RowCreated(doc, pdf)])
    case StoreOriginal(id, ok) =>
      var u := s.uploads[id];
      if ok then s.(w := Put(s.w, Original(u.doc), u.pdf), uploads := s.uploads[id := OriginalStored(u.doc)])
      else s.(uploads := s.uploads[id := PutFailed(u.doc)])
    case MarkUploadFailed(id, ok, message) =>
      s.(w := if ok then SetTables(s.w, MarkFailed(s.w.tables, s.uploads[id].doc, message)) else s.w,
         uploads := s.uploads - {id})
    case LinkOriginal(id, ok) =>
      var doc := s.uploads[id].doc;
      if ok then
        s.(w := SetTables(s.w, SetPath(s.w.tables, doc, Original(doc))), uploads := s.uploads[id := PathSet(doc)])
      else s.(uploads := s.uploads - {id})
    case Enqueue(id, accepted) =>
      s.(w := if accepted then Queue(s.w, s.uploads[id].doc) else s.w, uploads := s.uploads - {id})
    case Deliver(id, doc) =>
      if Exists(s.w, doc) then s.(runs := s.runs[id := Fetched(doc, Doc(s.w, doc).path)]) else s
    case Download(id, ok) =>
      var r := s.runs[id];
      s.(runs := s.runs[id := if ok then Downloaded(r.doc, s.w.bucket[r.path.value]) else Failing(r.doc)])
    case CountPages(id, ok) =>
      var r := s.runs[id];
      s.(runs := s.runs[id := if ok && r.pdf != 0 then Extracting(r.doc, F.Start(r.pdf)) else Failing(r.doc)])
    case Fan(id, step, size) =>
      var r := s.runs[id];
      s.(w := PageEffect(s.w, r.doc, r.fan, step, size), runs := s.runs[id := Extracting(r.doc, F.Next(r.fan, step))])
    case Join(id) =>
      var r := s.runs[id];
      s.(runs := s.runs[id := if r.fan.firstErr.None? then Marking(r.doc, |r.fan.pcs|) else Failing(r.doc)])
    case MarkRun(id, ok, message) =>
      s.(w := if ok then SetTables(s.w, MarkTables(s.w.tables, s.runs[id], message)) else s.w, runs := s.runs - {id})
    case Crash(id) => s.(runs := s.runs - {id})
    case ListForDelete(id, doc, user) =>
      s.(deletions := s.deletions[id := Listed(doc, user, PathsOf(SelectAll(s.w.tables.pages, doc)),
                                               Exists(s.w, doc) && Doc(s.w, doc).status == Ready)])
    case DeleteRow(id, ok) =>
      var x := s.deletions[id];
      var (tables, deleted) := Documents.Delete(s.w.tables, x.doc, x.user);
      if ok && deleted.Some? then
        var clean := x.ready && NoStoreOn(s, x.doc);
        s.(w := SetTables(s.w, tables),
           deletions := s.deletions[id := Cleaning(x.doc, PathOf(deleted.value) + x.pages, {}, clean)])
      else s.(deletions := s.deletions - {id})
    case RemoveNext(id, ok) =>
      var x := s.deletions[id];
      s.(w := if ok then Remove(s.w, x.remaining[0]) else s.w,
         deletions := s.deletions[id := Cleaning(x.doc, x.remaining[1..],
                                                 if ok then x.failed else x.failed + {x.remaining[0]}, x.clean)])
    case RegisterWebhook(hook, doc) => s.(w := SetTables(s.w, CreateWebhook(s.w.tables, hook, doc).0))
    case Sweep(readAt) => s.(w := SweepAt(s.w, readAt))
    case Tick(to) => s.(w := TickTo(s.w, to))
    case FileTraffic(key, stored) => s.(w := if stored then Put(s.w, key, 0) else Remove(s.w, key))
  }

  /** What a goroutine's statement does outside: the page object goes up, then the page row is saved. */
  ghost function PageEffect(w: World, doc: Id, f: F.Fan, step: F.Step, size: nat): World {
    if step.Advance? && step.ok && step.page < |f.pcs| then
      var num := PageNum(step.page);
      if f.pcs[step.page].Extracted? then Put(w, Page(doc, num), 1)
      else if f.pcs[step.page].Uploaded? then SetTables(w, SavePage(w.tables, doc, num, Page(doc, num), size).0)
      else w
    else w
  }

  ghost function MarkTables(t: Tables, r: Run, message: string): Tables
    requires r.Marking? || r.Failing?
  {
    if r.Marking? then MarkReady(t, r.doc, r.total) else MarkFailed(t, r.doc, message)
  }

  function PathsOf(rows: seq<Entry>): (paths: seq<ObjectKey>)
    ensures |paths| == |rows|
    ensures forall i | 0 <= i < |rows| :: paths[i] == rows[i].row.path
  {
    seq(|rows|, i requires 0 <= i < |rows| => rows[i].row.path)
  }

  /** The original's path; removing the empty path is an error of the store that changes nothing. */
  function PathOf(d: Document): seq<ObjectKey> {
    match d.path
    case Some(path) => [path]
    case None => []
  }

  /** The page has yet to be uploaded. */
  predicate BeforeUpload(pc: F.Pc) {
    pc in {F.Unspawned, F.Waiting, F.Extracting, F.Extracted}
  }

  predicate PastUploads(f: F.Fan) {
    forall i | 0 <= i < |f.pcs| :: !BeforeUpload(f.pcs[i])
  }

  /** The run may still store an object of its document. */
  predicate MayStore(r: Run) {
    r.Fetched? || r.Downloaded? || (r.Extracting? && !PastUploads(r.fan))
  }

  ghost predicate NoStoreOn(s: System, doc: Id) {
    forall r | r in s.runs && s.runs[r].doc == doc :: !MayStore(s.runs[r])
  }

  // ---------------------------------------------------------------- what holds of each actor

  ghost predicate UploadInv(w: World, u: Upload) {
    && u.doc in w.ever
    && (u.RowCreated? || u.PutFailed? ==> !Holds(w, Original(u.doc)))
    && (!u.PathSet? ==> !HasPath(w, u.doc) && u.doc !in w.queued)
    && (u.OriginalStored? && Exists(w, u.doc) ==> Holds(w, Original(u.doc)))
    && (u.PathSet? && Exists(w, u.doc) ==> HasPath(w, u.doc))
  }

  predicate RowDone(pc: F.Pc) {
    pc == F.Saved || pc == F.Released(true) || pc == F.Finished(true)
  }

  ghost predicate FanInv(w: World, doc: Id, f: F.Fan) {
    && F.Inv(f) && |f.pcs| >= 1
    && (Exists(w, doc) ==>
          && |f.pcs| == PagesOf(w, doc)
          && (forall i | 0 <= i < |f.pcs| && RowDone(f.pcs[i]) :: HasRow(w, doc, PageNum(i)))
          && (forall i | 0 <= i < |f.pcs| && f.pcs[i].Uploaded? :: Holds(w, Page(doc, PageNum(i)))))
  }

  ghost predicate RunInv(w: World, r: Run) {
    && r.doc in w.queued && (Exists(w, r.doc) ==> HasPath(w, r.doc))
    && match r
       case Fetched(doc, path) => path == Some(Original(doc))
       case Downloaded(doc, pdf) => Exists(w, doc) ==> pdf == PagesOf(w, doc)
       case Extracting(doc, fan) => FanInv(w, doc, fan)
       case Marking(doc, total) => Exists(w, doc) ==> total == PagesOf(w, doc) && total >= 1 && AllRows(w, doc, total)
       case Failing(_) => true
  }

  ghost predicate DeletionInv(w: World, x: Deletion) {
    match x
    case Listed(doc, _, pages, ready) =>
      && (forall k | k in pages :: k.Page? && k.doc == doc)
      && (ready ==> doc in w.ever)
      && (ready && Exists(w, doc) ==>
            && Doc(w, doc).totalPages.Some?
            && forall n: nat | 1 <= n <= Doc(w, doc).totalPages.value :: Page(doc, n) in pages)
    case Cleaning(doc, remaining, failed, clean) =>
      && doc in w.ever && !Exists(w, doc)
      && (forall k | k in remaining :: !k.File? && k.doc == doc)
      && (clean ==> Covered(w, doc, remaining, failed))
  }

  /** Whatever the bucket still holds of the document is on the list, or its removal has failed. */
  ghost predicate Covered(w: World, doc: Id, keys: seq<ObjectKey>, failed: set<ObjectKey>) {
    forall k | Holds(w, k) && !k.File? && k.doc == doc :: k in keys || k in failed
  }

  /** Nobody is left who could store another object of a cleanly deleted document. */
  ghost predicate Quiet(s: System, doc: Id) {
    NoStoreOn(s, doc) && forall u | u in s.uploads :: s.uploads[u].RowCreated? ==> s.uploads[u].doc != doc
  }

  ghost predicate CleanOf(s: System, x: Id) {
    x in s.deletions && s.deletions[x].Cleaning? && s.deletions[x].clean
  }

  ghost predicate ActorsInv(s: System) {
    && (forall u | u in s.uploads :: UploadInv(s.w, s.uploads[u]))
    && (forall u, v | u in s.uploads && v in s.uploads && u != v :: s.uploads[u].doc != s.uploads[v].doc)
    && (forall r | r in s.runs :: RunInv(s.w, s.runs[r]))
    && (forall x | x in s.deletions :: DeletionInv(s.w, s.deletions[x]))
    && (forall x | CleanOf(s, x) :: Quiet(s, s.deletions[x].doc))
  }

  ghost predicate Inv(s: System) {
    WorldInv(s.w) && ActorsInv(s)
  }

  // ---------------------------------------------------------------- what others do not disturb

  lemma UploadStays(w: World, v: World, u: Upload)
    requires WorldInv(w) && Grow(w, v) && UploadInv(w, u) && Untouched(w, v, u.doc)
    ensures UploadInv(v, u)
  {
  }

  lemma RunStays(w: World, v: World, r: Run)
    requires WorldInv(w) && WorldInv(v) && Grow(w, v) && RunInv(w, r)
    ensures RunInv(v, r)
  {
    if Exists(v, r.doc) {
      assert r.doc in w.ever && Exists(w, r.doc) && DocumentInv(w, r.doc);
      assert PagesOf(v, r.doc) == PagesOf(w, r.doc);
      match r
      case Marking(doc, total) =>
        forall n | 1 <= n <= total ensures PageId(doc, n) in v.tables.pages {
          assert HasRow(w, doc, n);
        }
      case _ =>
    }
  }

  lemma DeletionStays(w: World, v: World, x: Deletion)
    requires WorldInv(w) && Grow(w, v) && DeletionInv(w, x)
    requires x.Cleaning? && x.clean ==> Untouched(w, v, x.doc)
    ensures DeletionInv(v, x)
  {
    if x.Listed? && x.ready && Exists(v, x.doc) {
      assert Doc(v, x.doc).totalPages == Doc(w, x.doc).totalPages;
    }
  }

  /** A step of the world that touches at most document d keeps every actor of the others, and every run and listing. */
  lemma ActorsStay(s: System, v: World, d: Id)
    requires Inv(s) && TouchesOnly(s.w, v, d)
    ensures forall u | u in s.uploads && s.uploads[u].doc != d :: UploadInv(v, s.uploads[u])
    ensures forall r | r in s.runs :: RunInv(v, s.runs[r])
    ensures forall x | x in s.deletions && (CleanOf(s, x) ==> s.deletions[x].doc != d) :: DeletionInv(v, s.deletions[x])
  {
    forall u | u in s.uploads && s.uploads[u].doc != d ensures UploadInv(v, s.uploads[u]) {
      UploadStays(s.w, v, s.uploads[u]);
    }
    forall r | r in s.runs ensures RunInv(v, s.runs[r]) {
      RunStays(s.w, v, s.runs[r]);
    }
    forall x | x in s.deletions && (CleanOf(s, x) ==> s.deletions[x].doc != d) ensures DeletionInv(v, s.deletions[x]) {
      DeletionStays(s.w, v, s.deletions[x]);
    }
  }

  /** A step of the world that touches no document keeps every actor. */
  lemma AllActorsStay(s: System, v: World)
    requires Inv(s) && Silent(s.w, v)
    ensures Inv(s.(w := v))
  {
    forall u | u in s.uploads ensures UploadInv(v, s.uploads[u]) {
      UploadStays(s.w, v, s.uploads[u]);
    }
    forall r | r in s.runs ensures RunInv(v, s.runs[r]) {
      RunStays(s.w, v, s.runs[r]);
    }
    forall x | x in s.deletions ensures DeletionInv(v, s.deletions[x]) {
      DeletionStays(s.w, v, s.deletions[x]);
    }
  }

  // ---------------------------------------------------------------- uploads

  /** An upload that begins, or moves on without touching the world. */
  lemma UploadMoves(s: System, id: Id, u: Upload)
    requires Inv(s) && UploadInv(s.w, u)
    requires forall v | v in s.uploads && v != id :: s.uploads[v].doc != u.doc
    requires u.RowCreated? ==> forall x | CleanOf(s, x) :: s.deletions[x].doc != u.doc
    ensures Inv(s.(uploads := s.uploads[id := u]))
  {
    var n := s.(uploads := s.uploads[id := u]);
    forall x | CleanOf(n, x) ensures Quiet(n, n.deletions[x].doc) {
      assert CleanOf(s, x) && Quiet(s, s.deletions[x].doc);
    }
  }

  lemma UploadEnds(s: System, id: Id)
    requires Inv(s)
    ensures Inv(s.(uploads := s.uploads - {id}))
  {
    var n := s.(uploads := s.uploads - {id});
    forall x | CleanOf(n, x) ensures Quiet(n, n.deletions[x].doc) {
      assert CleanOf(s, x) && Quiet(s, s.deletions[x].doc);
    }
  }

  /** An upload that moves on and touches its own document. */
  lemma UploadTouches(s: System, id: Id, v: World, u: Upload)
    requires Inv(s) && id in s.uploads && s.uploads[id].doc == u.doc && !u.RowCreated?
    requires TouchesOnly(s.w, v, u.doc) && UploadInv(v, u)
    requires forall x | CleanOf(s, x) && s.deletions[x].doc == u.doc :: DeletionInv(v, s.deletions[x])
    ensures Inv(s.(w := v, uploads := s.uploads[id := u]))
  {
    var n := s.(w := v, uploads := s.uploads[id := u]);
    ActorsStay(s, v, u.doc);
    forall x | CleanOf(n, x) ensures Quiet(n, n.deletions[x].doc) {
      assert CleanOf(s, x) && Quiet(s, s.deletions[x].doc);
    }
  }

  lemma BeginUploadKeeps(s: System, a: Action)
    requires Inv(s) && a.BeginUpload? && Enabled(s, a)
    ensures Inv(Apply(s, a))
  {
    var v := Worlds.Insert(s.w, a.doc, a.owner);
    InsertKeeps(s.w, a.doc, a.owner);
    AllActorsStay(s, v);
    NewIdIsNobodys(s, a.doc);
    assert UploadInv(v, RowCreated(a.doc, a.pdf));
    UploadMoves(s.(w := v), a.id, RowCreated(a.doc, a.pdf));
  }

  lemma NewIdIsNobodys(s: System, doc: Id)
    requires Inv(s) && doc !in s.w.ever
    ensures !Holds(s.w, Original(doc)) && doc !in s.w.queued
    ensures forall u | u in s.uploads :: s.uploads[u].doc != doc
    ensures forall x | CleanOf(s, x) :: s.deletions[x].doc != doc
  {
    assert Holds(s.w, Original(doc)) ==> ObjectInv(s.w, Original(doc));
    forall u | u in s.uploads ensures s.uploads[u].doc != doc {
      assert UploadInv(s.w, s.uploads[u]);
    }
    forall x | CleanOf(s, x) ensures s.deletions[x].doc != doc {
      assert DeletionInv(s.w, s.deletions[x]);
    }
  }

  lemma StoreOriginalKeeps(s: System, a: Action)
    requires Inv(s) && a.StoreOriginal? && Enabled(s, a)
    ensures Inv(Apply(s, a))
  {
    var u := s.uploads[a.id];
    assert UploadInv(s.w, u);
    if a.ok {
      var v := Put(s.w, Original(u.doc), u.pdf);
      PutOriginalKeeps(s.w, u.doc, u.pdf);
      forall x | CleanOf(s, x) ensures s.deletions[x].doc != u.doc {
        assert Quiet(s, s.deletions[x].doc);
      }
      UploadTouches(s, a.id, v, OriginalStored(u.doc));
    } else {
      UploadMoves(s, a.id, PutFailed(u.doc));
    }
  }

  lemma EndUploadKeeps(s: System, a: Action)
    requires Inv(s) && Enabled(s, a)
    requires a.MarkUploadFailed? || (a.LinkOriginal? && !a.ok) || (a.Enqueue? && !a.accepted)
    ensures Inv(Apply(s, a))
  {
    var v := Apply(s, a).w;
    if a.MarkUploadFailed? && a.ok {
      MarkFailedKeeps(s.w, s.uploads[a.id].doc, a.message);
      AllActorsStay(s, v);
    }
    UploadEnds(s.(w := v), a.id);
  }

  lemma LinkOriginalKeeps(s: System, a: Action)
    requires Inv(s) && a.LinkOriginal? && a.ok && Enabled(s, a)
    ensures Inv(Apply(s, a))
  {
    var u, v := s.uploads[a.id], Apply(s, a).w;
    assert UploadInv(s.w, u);
    SetPathKeeps(s.w, u.doc);
    forall x | CleanOf(s, x) && s.deletions[x].doc == u.doc ensures DeletionInv(v, s.deletions[x]) {
      assert DeletionInv(s.w, s.deletions[x]) && v == s.w;
    }
    UploadTouches(s, a.id, v, PathSet(u.doc));
  }

  lemma EnqueueKeeps(s: System, a: Action)
    requires Inv(s) && a.Enqueue? && a.accepted && Enabled(s, a)
    ensures Inv(Apply(s, a))
  {
    var u, v := s.uploads[a.id], Apply(s, a).w;
    assert UploadInv(s.w, u);
    QueueKeeps(s.w, u.doc);
    forall x | CleanOf(s, x) && s.deletions[x].doc == u.doc ensures DeletionInv(v, s.deletions[x]) {
      assert DeletionInv(s.w, s.deletions[x]);
    }
    UploadTouches(s, a.id, v, u);
    UploadEnds(s.(w := v, uploads := s.uploads[a.id := u]), a.id);
    assert s.uploads[a.id := u] - {a.id} == s.uploads - {a.id};
  }

  // ---------------------------------------------------------------- extraction runs

  /** Steps that only move one run on, to a state that is good, or end it. */
  lemma RunMoves(s: System, id: Id, r: Run)
    requires Inv(s) && RunInv(s.w, r) && (if id in s.runs then s.runs[id].doc == r.doc else Exists(s.w, r.doc))
    requires id in s.runs && MayStore(r) ==> MayStore(s.runs[id])
    ensures Inv(s.(runs := s.runs[id := r]))
  {
    var n := s.(runs := s.runs[id := r]);
    forall x | CleanOf(s, x) ensures Quiet(n, s.deletions[x].doc) {
      assert Quiet(s, s.deletions[x].doc) && DeletionInv(s.w, s.deletions[x]);
    }
  }

  lemma RunEnds(s: System, id: Id)
    requires Inv(s)
    ensures Inv(s.(runs := s.runs - {id}))
  {
    var n := s.(runs := s.runs - {id});
    forall x | CleanOf(s, x) ensures Quiet(n, s.deletions[x].doc) {
      assert Quiet(s, s.deletions[x].doc);
    }
  }

  lemma DeliverKeeps(s: System, a: Action)
    requires Inv(s) && a.Deliver? && Enabled(s, a)
    ensures Inv(Apply(s, a))
  {
    if Exists(s.w, a.doc) {
      assert DocumentInv(s.w, a.doc);
      RunMoves(s, a.id, Fetched(a.doc, Doc(s.w, a.doc).path));
    }
  }

  lemma ReadOriginalKeeps(s: System, a: Action)
    requires Inv(s) && (a.Download? || a.CountPages?) && Enabled(s, a)
    ensures Inv(Apply(s, a))
  {
    var r := s.runs[a.id];
    assert RunInv(s.w, r);
    if a.CountPages? && a.ok && r.pdf != 0 {
      F.StartInv(r.pdf);
    }
    RunMoves(s, a.id, Apply(s, a).runs[a.id]);
  }

  lemma JoinKeeps(s: System, a: Action)
    requires Inv(s) && a.Join? && Enabled(s, a)
    ensures Inv(Apply(s, a))
  {
    var r := s.runs[a.id];
    assert RunInv(s.w, r);
    F.JoinedOutcome(r.fan);
    if r.fan.firstErr.None? && Exists(s.w, r.doc) {
      forall n | 1 <= n <= |r.fan.pcs| ensures PageId(r.doc, n) in s.w.tables.pages {
        assert RowDone(r.fan.pcs[n - 1]) && PageNum(n - 1) == n;
      }
    }
    RunMoves(s, a.id, Apply(s, a).runs[a.id]);
  }

  lemma MarkRunKeeps(s: System, a: Action)
    requires Inv(s) && a.MarkRun? && Enabled(s, a)
    ensures Inv(Apply(s, a))
  {
    var r := s.runs[a.id];
    assert RunInv(s.w, r);
    var v := Apply(s, a).w;
    if a.ok {
      if r.Marking? {
        MarkReadyKeeps(s.w, r.doc, r.total);
      } else {
        MarkFailedKeeps(s.w, r.doc, a.message);
      }
      AllActorsStay(s, v);
    }
    RunEnds(s.(w := v), a.id);
  }

  lemma FanKeeps(s: System, a: Action)
    requires Inv(s) && a.Fan? && Enabled(s, a)
    ensures Inv(Apply(s, a))
  {
    var r, v := s.runs[a.id], Apply(s, a).w;
    assert RunInv(s.w, r);
    PageEffectKeeps(s, a);
    F.StepInv(r.fan, a.step);
    FanStaysPast(r.fan, a.step);
    FanMoves(s.w, v, r.doc, r.fan, a.step, a.size);
    RunMoves(s.(w := v), a.id, Extracting(r.doc, F.Next(r.fan, a.step)));
  }

  lemma PageEffectKeeps(s: System, a: Action)
    requires Inv(s) && a.Fan? && Enabled(s, a)
    ensures Inv(s.(w := Apply(s, a).w)) && Grow(s.w, Apply(s, a).w)
  {
    var r, v := s.runs[a.id], Apply(s, a).w;
    assert RunInv(s.w, r);
    if v != s.w {
      var num := PageNum(a.step.page);
      if r.fan.pcs[a.step.page].Extracted? {
        PutPageKeeps(s.w, r.doc, num, 1);
        PutPageDisturbsNobody(s, r.doc, num, 1);
      } else {
        SavePageKeeps(s.w, r.doc, num, a.size);
        AllActorsStay(s, v);
      }
    }
  }

  /** A page object can only appear while a run may store one, so it is nobody's cleanly deleted document. */
  lemma PutPageDisturbsNobody(s: System, d: Id, n: nat, pdf: nat)
    requires Inv(s) && !NoStoreOn(s, d)
    requires TouchesOnly(s.w, Put(s.w, Page(d, n), pdf), d)
    ensures Inv(s.(w := Put(s.w, Page(d, n), pdf)))
  {
    var v := Put(s.w, Page(d, n), pdf);
    ActorsStay(s, v, d);
    forall u | u in s.uploads ensures UploadInv(v, s.uploads[u]) {
      assert UploadInv(s.w, s.uploads[u]);
    }
    forall x | x in s.deletions ensures DeletionInv(v, s.deletions[x]) {
      assert CleanOf(s, x) ==> Quiet(s, s.deletions[x].doc);
    }
  }

  /** No statement takes a page back before its upload. */
  lemma FanStaysPast(f: F.Fan, step: F.Step)
    requires F.Shaped(f) && F.Enabled(f, step)
    ensures PastUploads(f) ==> PastUploads(F.Next(f, step))
  {
    var g := F.Next(f, step);
    if i :| 0 <= i < |g.pcs| && BeforeUpload(g.pcs[i]) {
      assert BeforeUpload(f.pcs[i]);
    }
  }

  lemma FanMoves(w: World, v: World, d: Id, f: F.Fan, step: F.Step, size: nat)
    requires FanInv(w, d, f) && F.Enabled(f, step) && F.Inv(F.Next(f, step)) && d in w.ever
    requires v == PageEffect(w, d, f, step, size) && Grow(w, v)
    requires step.Advance? && f.pcs[step.page].Uploaded? && !Exists(w, d) ==> !step.ok
    requires Exists(w, d) ==> Holds(w, Original(d))
    ensures FanInv(v, d, F.Next(f, step))
  {
    var g := F.Next(f, step);
    if Exists(v, d) {
      forall j | 0 <= j < |g.pcs| && RowDone(g.pcs[j]) ensures HasRow(v, d, PageNum(j)) {
        PageMoves(w, v, d, f, step, size, j);
      }
      forall j | 0 <= j < |g.pcs| && g.pcs[j].Uploaded? ensures Holds(v, Page(d, PageNum(j))) {
        PageMoves(w, v, d, f, step, size, j);
      }
    }
  }

  /** One page of a living document: saved pages have their row, uploaded ones their object. */
  lemma PageMoves(w: World, v: World, d: Id, f: F.Fan, step: F.Step, size: nat, j: nat)
    requires F.Enabled(f, step) && j < |f.pcs| && F.Shaped(f) && Exists(w, d) && Exists(v, d)
    requires v == PageEffect(w, d, f, step, size) && Grow(w, v)
    requires RowDone(f.pcs[j]) ==> HasRow(w, d, PageNum(j))
    requires f.pcs[j].Uploaded? ==> Holds(w, Page(d, PageNum(j)))
    ensures RowDone(F.Next(f, step).pcs[j]) ==> HasRow(v, d, PageNum(j))
    ensures F.Next(f, step).pcs[j].Uploaded? ==> Holds(v, Page(d, PageNum(j)))
  {
  }

  // ---------------------------------------------------------------- deletion

  /** The listing of a document names page objects of that document only. */
  lemma ListingIsOwn(w: World, doc: Id)
    requires WorldInv(w)
    ensures forall k | k in PathsOf(SelectAll(w.tables.pages, doc)) :: k.Page? && k.doc == doc
  {
    AscendingMembers(NumsOf(w.tables.pages, doc));
    var paths, nums := PathsOf(SelectAll(w.tables.pages, doc)), Ascending(NumsOf(w.tables.pages, doc));
    forall k | k in paths ensures k.Page? && k.doc == doc {
      var i :| 0 <= i < |paths| && paths[i] == k;
      assert nums[i] in nums;
      assert PageInv(w, PageId(doc, nums[i]));
    }
  }

  lemma ListingHasRow(w: World, doc: Id, n: nat)
    requires WorldInv(w) && PageId(doc, n) in w.tables.pages
    ensures Page(doc, n) in PathsOf(SelectAll(w.tables.pages, doc))
  {
    AscendingMembers(NumsOf(w.tables.pages, doc));
    var paths, nums := PathsOf(SelectAll(w.tables.pages, doc)), Ascending(NumsOf(w.tables.pages, doc));
    assert PageInv(w, PageId(doc, n)) && n in nums;
    var i :| 0 <= i < |nums| && nums[i] == n;
    assert paths[i] == Page(doc, n);
  }

  lemma ListKeeps(s: System, a: Action)
    requires Inv(s) && a.ListForDelete? && Enabled(s, a)
    ensures Inv(Apply(s, a))
  {
    ListingIsOwn(s.w, a.doc);
    if Exists(s.w, a.doc) && Doc(s.w, a.doc).status == Ready {
      assert DocumentInv(s.w, a.doc);
      forall n: nat | 1 <= n <= Doc(s.w, a.doc).totalPages.value
        ensures Page(a.doc, n) in PathsOf(SelectAll(s.w.tables.pages, a.doc))
      {
        assert PageId(a.doc, n) in s.w.tables.pages;
        ListingHasRow(s.w, a.doc, n);
      }
    }
    DeletionUpdates(s, a.id, Apply(s, a).deletions[a.id]);
  }

  /** A deletion that begins, or moves on, to a state that is good. */
  lemma DeletionUpdates(s: System, id: Id, x: Deletion)
    requires Inv(s) && DeletionInv(s.w, x) && (x.Cleaning? && x.clean ==> Quiet(s, x.doc))
    ensures Inv(s.(deletions := s.deletions[id := x]))
  {
    var n := s.(deletions := s.deletions[id := x]);
    forall y | CleanOf(n, y) ensures Quiet(n, n.deletions[y].doc) {
      assert y != id ==> CleanOf(s, y) && Quiet(s, s.deletions[y].doc);
    }
  }

  lemma DeleteRowKeeps(s: System, a: Action)
    requires Inv(s) && a.DeleteRow? && Enabled(s, a)
    ensures Inv(Apply(s, a))
  {
    var x := s.deletions[a.id];
    assert DeletionInv(s.w, x);
    var (tables, deleted) := Documents.Delete(s.w.tables, x.doc, x.user);
    if a.ok && deleted.Some? {
      var v, d := SetTables(s.w, tables), Apply(s, a).deletions[a.id];
      DeleteKeeps(s.w, x.doc, x.user);
      AllActorsStay(s, v);
      ListCovers(s, x);
      assert DeletionInv(v, d);
      DeletionUpdates(s.(w := v), a.id, d);
    } else {
      DeletionEnds(s, a.id);
    }
  }

  lemma DeletionEnds(s: System, id: Id)
    requires Inv(s)
    ensures Inv(s.(deletions := s.deletions - {id}))
  {
    var n := s.(deletions := s.deletions - {id});
    forall y | CleanOf(n, y) ensures Quiet(n, n.deletions[y].doc) {
      assert CleanOf(s, y) && Quiet(s, s.deletions[y].doc);
    }
  }

  /** Of a document that was ready when its pages were listed, the original and the list are all there is. */
  lemma ListCovers(s: System, x: Deletion)
    requires Inv(s) && x.Listed? && DeletionInv(s.w, x) && Exists(s.w, x.doc)
    ensures forall k | k in PathOf(Doc(s.w, x.doc)) + x.pages :: !k.File? && k.doc == x.doc
    ensures x.doc in s.w.ever
    ensures x.ready ==> Covered(s.w, x.doc, PathOf(Doc(s.w, x.doc)) + x.pages, {})
    ensures x.ready ==> forall u | u in s.uploads :: s.uploads[u].RowCreated? ==> s.uploads[u].doc != x.doc
  {
    assert DocumentInv(s.w, x.doc);
    if x.ready {
      forall k | Holds(s.w, k) && !k.File? && k.doc == x.doc ensures k in PathOf(Doc(s.w, x.doc)) + x.pages {
        assert ObjectInv(s.w, k);
      }
      forall u | u in s.uploads && s.uploads[u].RowCreated? ensures s.uploads[u].doc != x.doc {
        assert UploadInv(s.w, s.uploads[u]);
      }
    }
  }

  lemma RemoveNextKeeps(s: System, a: Action)
    requires Inv(s) && a.RemoveNext? && Enabled(s, a)
    ensures Inv(Apply(s, a))
  {
    var x, v := s.deletions[a.id], Apply(s, a).w;
    assert DeletionInv(s.w, x);
    var k := x.remaining[0];
    assert k in x.remaining;
    if a.ok {
      RemoveKeeps(s.w, k);
      AllActorsStay(s, v);
    }
    assert x.remaining == [k] + x.remaining[1..];
    assert x.clean ==> CleanOf(s, a.id) && Quiet(s, x.doc);
    DeletionUpdates(s.(w := v), a.id, Apply(s, a).deletions[a.id]);
  }

  // ---------------------------------------------------------------- everybody else

  lemma BystanderKeeps(s: System, a: Action)
    requires Inv(s) && Enabled(s, a)
    requires a.RegisterWebhook? || a.Sweep? || a.Tick?
    ensures Inv(Apply(s, a))
  {
    BystanderEffect(s.w, a);
    AllActorsStay(s, Apply(s, a).w);
  }

  lemma BystanderEffect(w: World, a: Action)
    requires WorldInv(w) && (a.Sweep? ==> w.lastSweep <= a.readAt <= w.now) && (a.Tick? ==> w.now <= a.to)
    requires a.RegisterWebhook? || a.Sweep? || a.Tick?
    ensures var v := match a
              case RegisterWebhook(hook, doc) => SetTables(w, CreateWebhook(w.tables, hook, doc).0)
              case Sweep(readAt) => SweepAt(w, readAt)
              case _ => TickTo(w, a.to);
            Silent(w, v)
  {
    match a
    case RegisterWebhook(hook, doc) => WebhookKeeps(w, hook, doc);
    case Sweep(readAt) => SweepKeeps(w, readAt);
    case Tick(to) => TickKeeps(w, to);
  }

  lemma FileTrafficStays(s: System, a: Action)
    requires Inv(s) && Enabled(s, a) && a.FileTraffic?
    ensures Inv(Apply(s, a))
  {
    if a.stored {
      FileTrafficKeeps(s.w, a.key, 0);
    } else {
      RemoveKeeps(s.w, a.key);
    }
    AllActorsStay(s, Apply(s, a).w);
  }

  lemma StepKeeps(s: System, a: Action)
    requires Inv(s) && Enabled(s, a)
    ensures Inv(Apply(s, a))
  {
    match a
    case BeginUpload(_, _, _, _) => BeginUploadKeeps(s, a);
    case StoreOriginal(_, _) => StoreOriginalKeeps(s, a);
    case MarkUploadFailed(_, _, _) => EndUploadKeeps(s, a);
    case LinkOriginal(_, ok) => if ok { LinkOriginalKeeps(s, a); } else { EndUploadKeeps(s, a); }
    case Enqueue(_, accepted) => if accepted { EnqueueKeeps(s, a); } else { EndUploadKeeps(s, a); }
    case Deliver(_, _) => DeliverKeeps(s, a);
    case Download(_, _) => ReadOriginalKeeps(s, a);
    case CountPages(_, _) => ReadOriginalKeeps(s, a);
    case Fan(_, _, _) => FanKeeps(s, a);
    case Join(_) => JoinKeeps(s, a);
    case MarkRun(_, _, _) => MarkRunKeeps(s, a);
    case Crash(id) => RunEnds(s, id);
    case ListForDelete(_, _, _) => ListKeeps(s, a);
    case DeleteRow(_, _) => DeleteRowKeeps(s, a);
    case RemoveNext(_, _) => RemoveNextKeeps(s, a);
    case FileTraffic(_, _) => FileTrafficStays(s, a);
    case _ => BystanderKeeps(s, a);
  }
}
