/**
 * What the actors of the document protocol share: the tables, the bucket, the task queue and the clock. Each function
 * is one atomic effect on it; `WorldInv` is what every effect keeps, and `Grow` what it never takes back from a
 * document that still has its row.
 */
module Worlds {
  import opened Options
  import opened Keys
  import opened Documents

  /**
   * The bucket maps each object to the number of pages of the PDF it holds. `ever` is a history: the ids ever given to
   * a document. `lastSweep` is the clock reading of the last sweep that committed.
   */
  datatype World = World(
    tables: Tables,
    bucket: map<ObjectKey, nat>,
    ever: set<Id>,
    queued: set<Id>,
    now: int,
    lastSweep: int,
    timeout: nat)

  function Doc(w: World, d: Id): Document
    requires d in w.tables.docs
  {
    w.tables.docs[d]
  }

  predicate Exists(w: World, d: Id) {
    d in w.tables.docs
  }

  predicate HasPath(w: World, d: Id) {
    Exists(w, d) && Doc(w, d).path.Some?
  }

  predicate HasRow(w: World, d: Id, n: nat) {
    PageId(d, n) in w.tables.pages
  }

  predicate Holds(w: World, k: ObjectKey) {
    k in w.bucket
  }

  /** The page count of a document's stored original. */
  function PagesOf(w: World, d: Id): nat {
    if Holds(w, Original(d)) then w.bucket[Original(d)] else 0
  }

  ghost predicate AllRows(w: World, d: Id, total: nat) {
    forall n | 1 <= n <= total :: PageId(d, n) in w.tables.pages
  }

  // ---------------------------------------------------------------- the invariant

  ghost predicate DocumentInv(w: World, d: Id)
    requires Exists(w, d)
  {
    var r := Doc(w, d);
    && d in w.ever
    && (r.path.Some? ==> r.path.value == Original(d) && Holds(w, Original(d)))
    && (r.status == Processing ==>
          r.totalPages.None? && r.errorMessage.None? && w.lastSweep - w.timeout <= r.createdAt)
    && (r.status == Failed ==> r.errorMessage.Some?)
    && (r.status == Ready ==> r.totalPages.Some?)
    && (r.totalPages.Some? ==>
          && r.path.Some? && r.totalPages.value == PagesOf(w, d) && r.totalPages.value >= 1
          && AllRows(w, d, r.totalPages.value))
    && (d in w.queued ==> r.path.Some?)
  }

  /** A page row belongs to a document with a path, is one of its pages and points at that page's stored object. */
  ghost predicate PageInv(w: World, p: PageId)
    requires p in w.tables.pages
  {
    && HasPath(w, p.doc) && 1 <= p.num <= PagesOf(w, p.doc)
    && w.tables.pages[p].path == Page(p.doc, p.num) && Holds(w, Page(p.doc, p.num))
  }

  /** Stored document objects belong to documents that were created; a page object of a living one is a page of it. */
  ghost predicate ObjectInv(w: World, k: ObjectKey) {
    !k.File? ==>
      && k.doc in w.ever
      && (k.Page? && Exists(w, k.doc) ==> HasPath(w, k.doc) && 1 <= k.num <= PagesOf(w, k.doc))
  }

  ghost predicate WorldInv(w: World) {
    && (forall d | Exists(w, d) :: DocumentInv(w, d))
    && (forall p | p in w.tables.pages :: PageInv(w, p))
    && (forall k | Holds(w, k) :: ObjectInv(w, k))
    && (forall h | h in w.tables.hooks :: Exists(w, w.tables.hooks[h]))
    && (forall d | d in w.queued :: d in w.ever)
    && w.lastSweep <= w.now
  }

  // ---------------------------------------------------------------- what effects keep and do not add

  /** Documents come only with new ids, and a document that stays keeps its path, its rows and its objects. */
  ghost predicate Grow(w: World, v: World) {
    && w.ever <= v.ever && w.queued <= v.queued
    && (forall d | Exists(v, d) :: Exists(w, d) || d !in w.ever)
    && (forall d | Exists(v, d) && HasPath(w, d) :: HasPath(v, d))
    && (forall d | Exists(v, d) && Exists(w, d) && Doc(w, d).totalPages.Some? ::
          Doc(v, d).totalPages == Doc(w, d).totalPages)
    && (forall d | Exists(v, d) && Exists(w, d) && Doc(w, d).status != Processing :: Doc(v, d).status != Processing)
    && (forall d | Exists(v, d) && Exists(w, d) && Holds(w, Original(d)) ::
          Holds(v, Original(d)) && PagesOf(v, d) == PagesOf(w, d))
    && (forall d, n: nat | Exists(v, d) && Exists(w, d) && HasRow(w, d, n) :: HasRow(v, d, n))
    && (forall d, n: nat | Exists(v, d) && Exists(w, d) && Holds(w, Page(d, n)) :: Holds(v, Page(d, n)))
  }

  /** Nothing of this document is new: no object, no path, no place in the queue. */
  ghost predicate Untouched(w: World, v: World, d: Id) {
    && (forall k | Holds(v, k) && !k.File? && k.doc == d :: Holds(w, k))
    && (d in v.queued ==> d in w.queued)
    && (HasPath(v, d) ==> HasPath(w, d))
  }

  /** A good world in which nothing is taken back and nothing is new. */
  ghost predicate Silent(w: World, v: World) {
    WorldInv(v) && Grow(w, v) && forall e :: Untouched(w, v, e)
  }

  /** A good world in which nothing is taken back and nothing is new but for document d. */
  ghost predicate TouchesOnly(w: World, v: World, d: Id) {
    WorldInv(v) && Grow(w, v) && forall e | e != d :: Untouched(w, v, e)
  }

  // ---------------------------------------------------------------- effects

  function Insert(w: World, d: Id, owner: Id): World {
    w.(tables := Documents.Insert(w.tables, d, owner, w.now), ever := w.ever + {d})
  }

  lemma InsertKeeps(w: World, d: Id, owner: Id)
    requires WorldInv(w) && d !in w.ever
    ensures Silent(w, Insert(w, d, owner))
  {
    var v := Insert(w, d, owner);
    assert !Exists(w, d) by { assert Exists(w, d) ==> DocumentInv(w, d); }
    forall e | Exists(v, e) ensures DocumentInv(v, e) {
      if e != d { assert Exists(w, e) && DocumentInv(w, e) && Doc(v, e) == Doc(w, e); }
    }
    forall k | Holds(v, k) ensures ObjectInv(v, k) {
      assert Holds(w, k) && ObjectInv(w, k);
    }
  }

  function Put(w: World, k: ObjectKey, pdf: nat): World {
    w.(bucket := w.bucket[k := pdf])
  }

  lemma PutOriginalKeeps(w: World, d: Id, pdf: nat)
    requires WorldInv(w) && d in w.ever && !Holds(w, Original(d)) && !HasPath(w, d)
    ensures TouchesOnly(w, Put(w, Original(d), pdf), d)
  {
    var v := Put(w, Original(d), pdf);
    forall e | Exists(v, e) ensures DocumentInv(v, e) {
      assert Exists(w, e) && DocumentInv(w, e);
    }
    forall k | Holds(v, k) ensures ObjectInv(v, k) {
      assert k != Original(d) ==> Holds(w, k) && ObjectInv(w, k);
    }
  }

  lemma PutPageKeeps(w: World, d: Id, n: nat, pdf: nat)
    requires WorldInv(w) && d in w.ever
    requires Exists(w, d) ==> HasPath(w, d) && 1 <= n <= PagesOf(w, d)
    ensures TouchesOnly(w, Put(w, Page(d, n), pdf), d)
  {
    var v := Put(w, Page(d, n), pdf);
    assert forall e :: PagesOf(v, e) == PagesOf(w, e);
    forall e | Exists(v, e) ensures DocumentInv(v, e) {
      assert Exists(w, e) && DocumentInv(w, e);
    }
    forall k | Holds(v, k) ensures ObjectInv(v, k) {
      assert k != Page(d, n) ==> Holds(w, k) && ObjectInv(w, k);
    }
  }

  /** Removing an object of a document that is gone. */
  function Remove(w: World, k: ObjectKey): World {
    w.(bucket := w.bucket - {k})
  }

  lemma RemoveKeeps(w: World, k: ObjectKey)
    requires WorldInv(w) && (k.File? || !Exists(w, k.doc))
    ensures Silent(w, Remove(w, k))
  {
    var v := Remove(w, k);
    forall e | Exists(v, e) ensures DocumentInv(v, e) {
      assert Exists(w, e) && DocumentInv(w, e);
    }
    forall l | Holds(v, l) ensures ObjectInv(v, l) {
      assert Holds(w, l) && ObjectInv(w, l);
    }
  }

  /** The file service shares the bucket under its own keys. */
  lemma FileTrafficKeeps(w: World, k: ObjectKey, size: nat)
    requires WorldInv(w) && k.File?
    ensures Silent(w, Put(w, k, size))
  {
    var v := Put(w, k, size);
    assert forall e :: PagesOf(v, e) == PagesOf(w, e);
    forall e | Exists(v, e) ensures DocumentInv(v, e) {
      assert Exists(w, e) && DocumentInv(w, e);
    }
    forall l | Holds(v, l) ensures ObjectInv(v, l) {
      assert l != k ==> Holds(w, l) && ObjectInv(w, l);
    }
  }

  /** Changes to document rows that neither add nor remove one. */
  function SetTables(w: World, t: Tables): World {
    w.(tables := t)
  }

  /** A row's columns may change only so that the row stays good and nothing is taken back. */
  ghost predicate RowStep(w: World, v: World, d: Id)
    requires Exists(w, d) && Exists(v, d)
  {
    && DocumentInv(v, d)
    && (Doc(w, d).path.Some? ==> Doc(v, d).path.Some?)
    && (Doc(w, d).totalPages.Some? ==> Doc(v, d).totalPages == Doc(w, d).totalPages)
    && (Doc(w, d).status != Processing ==> Doc(v, d).status != Processing)
  }

  lemma RowsKeep(w: World, v: World)
    requires WorldInv(w) && v.tables.docs.Keys == w.tables.docs.Keys
    requires v.tables.pages == w.tables.pages && v.tables.hooks == w.tables.hooks
    requires v.bucket == w.bucket && v.ever == w.ever && v.queued == w.queued && v.lastSweep <= v.now
    requires forall d | Exists(v, d) :: Exists(w, d) && RowStep(w, v, d)
    ensures WorldInv(v) && Grow(w, v)
  {
    forall k | Holds(v, k) ensures ObjectInv(v, k) {
      assert Holds(w, k) && ObjectInv(w, k);
    }
  }

  lemma MarkFailedKeeps(w: World, d: Id, message: string)
    requires WorldInv(w)
    ensures Silent(w, SetTables(w, MarkFailed(w.tables, d, message)))
  {
    var v := SetTables(w, MarkFailed(w.tables, d, message));
    forall e | Exists(v, e) ensures Exists(w, e) && RowStep(w, v, e) {
      assert Exists(w, e) && DocumentInv(w, e);
    }
    RowsKeep(w, v);
  }

  lemma MarkReadyKeeps(w: World, d: Id, total: nat)
    requires WorldInv(w)
    requires Exists(w, d) ==> HasPath(w, d) && total == PagesOf(w, d) && total >= 1 && AllRows(w, d, total)
    ensures Silent(w, SetTables(w, MarkReady(w.tables, d, total)))
  {
    var v := SetTables(w, MarkReady(w.tables, d, total));
    forall e | Exists(v, e) ensures Exists(w, e) && RowStep(w, v, e) {
      assert Exists(w, e) && DocumentInv(w, e);
    }
    RowsKeep(w, v);
  }

  lemma SetPathKeeps(w: World, d: Id)
    requires WorldInv(w) && (Exists(w, d) ==> Holds(w, Original(d)))
    ensures TouchesOnly(w, SetTables(w, SetPath(w.tables, d, Original(d))), d)
    ensures HasPath(SetTables(w, SetPath(w.tables, d, Original(d))), d) <==> Exists(w, d)
  {
    var v := SetTables(w, SetPath(w.tables, d, Original(d)));
    forall e | Exists(v, e) ensures Exists(w, e) && RowStep(w, v, e) {
      assert Exists(w, e) && DocumentInv(w, e);
    }
    RowsKeep(w, v);
  }

  function SweepAt(w: World, readAt: int): World {
    w.(tables := FailStuck(w.tables, readAt - w.timeout), lastSweep := readAt)
  }

  lemma SweepKeeps(w: World, readAt: int)
    requires WorldInv(w) && w.lastSweep <= readAt <= w.now
    ensures Silent(w, SweepAt(w, readAt))
  {
    var v := SweepAt(w, readAt);
    forall e | Exists(v, e) ensures Exists(w, e) && RowStep(w, v, e) {
      assert Exists(w, e) && DocumentInv(w, e);
    }
    RowsKeep(w, v);
  }

  function TickTo(w: World, now: int): World {
    w.(now := now)
  }

  lemma TickKeeps(w: World, now: int)
    requires WorldInv(w) && w.now <= now
    ensures Silent(w, TickTo(w, now))
  {
    var v := TickTo(w, now);
    forall e | Exists(v, e) ensures Exists(w, e) && RowStep(w, v, e) {
      assert Exists(w, e) && DocumentInv(w, e);
    }
    RowsKeep(w, v);
  }

  function Queue(w: World, d: Id): World {
    w.(queued := w.queued + {d})
  }

  lemma QueueKeeps(w: World, d: Id)
    requires WorldInv(w) && d in w.ever && (Exists(w, d) ==> HasPath(w, d))
    ensures TouchesOnly(w, Queue(w, d), d)
  {
    var v := Queue(w, d);
    forall e | Exists(v, e) ensures DocumentInv(v, e) {
      assert Exists(w, e) && DocumentInv(w, e);
    }
    forall k | Holds(v, k) ensures ObjectInv(v, k) {
      assert Holds(w, k) && ObjectInv(w, k);
    }
  }

  lemma SavePageKeeps(w: World, d: Id, n: nat, size: nat)
    requires WorldInv(w) && HasPath(w, d) && 1 <= n <= PagesOf(w, d) && Holds(w, Page(d, n))
    ensures Silent(w, SetTables(w, SavePage(w.tables, d, n, Page(d, n), size).0))
  {
    var v := SetTables(w, SavePage(w.tables, d, n, Page(d, n), size).0);
    forall e | Exists(v, e) ensures DocumentInv(v, e) {
      assert Exists(w, e) && DocumentInv(w, e);
    }
    forall p | p in v.tables.pages ensures PageInv(v, p) {
      assert p != PageId(d, n) ==> p in w.tables.pages && PageInv(w, p);
    }
    forall k | Holds(v, k) ensures ObjectInv(v, k) {
      assert Holds(w, k) && ObjectInv(w, k);
    }
  }

  lemma WebhookKeeps(w: World, h: Id, d: Id)
    requires WorldInv(w)
    ensures Silent(w, SetTables(w, CreateWebhook(w.tables, h, d).0))
  {
    var v := SetTables(w, CreateWebhook(w.tables, h, d).0);
    forall e | Exists(v, e) ensures DocumentInv(v, e) {
      assert Exists(w, e) && DocumentInv(w, e);
    }
    forall k | Holds(v, k) ensures ObjectInv(v, k) {
      assert Holds(w, k) && ObjectInv(w, k);
    }
  }

  lemma DeleteKeeps(w: World, d: Id, user: Id)
    requires WorldInv(w)
    ensures Silent(w, SetTables(w, Delete(w.tables, d, user).0))
  {
    var v := SetTables(w, Delete(w.tables, d, user).0);
    forall e | Exists(v, e) ensures DocumentInv(v, e) {
      assert Exists(w, e) && DocumentInv(w, e) && Doc(v, e) == Doc(w, e);
    }
    forall p | p in v.tables.pages ensures PageInv(v, p) {
      assert p in w.tables.pages && PageInv(w, p);
    }
    forall k | Holds(v, k) ensures ObjectInv(v, k) {
      assert Holds(w, k) && ObjectInv(w, k);
    }
  }
}
