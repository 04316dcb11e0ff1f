/**
 * Documents, their extracted pages and webhooks. Each function says what one statement of the store does to the tables;
 * `DocumentStore` holds the tables and executes the statements.
 */
module Documents {
  import opened Options
  import opened Keys
  import L = Ledger

  datatype Status = Processing | Ready | Failed

  /** `path` is None while original_minio_path is the empty string. */
  datatype Document = Document(
    owner: Id,
    path: Option<ObjectKey>,
    status: Status,
    totalPages: Option<nat>,
    errorMessage: Option<string>,
    createdAt: int)

  /** The unique (document_id, page_number) of a page row. */
  datatype PageId = PageId(doc: Id, num: nat)

  datatype PageRow = PageRow(path: ObjectKey, size: nat)

  datatype Tables = Tables(docs: map<Id, Document>, pages: map<PageId, PageRow>, hooks: map<Id, Id>)

  const TIMEOUT_MESSAGE := "processing timeout: worker did not complete in time"

  function Insert(t: Tables, doc: Id, owner: Id, now: int): Tables {
    t.(docs := t.docs[doc := Document(owner, None, Processing, None, None, now)])
  }

  /** An UPDATE whose WHERE id = doc may match no row. */
  function Update(t: Tables, doc: Id, f: Document -> Document): Tables {
    if doc in t.docs then t.(docs := t.docs[doc := f(t.docs[doc])]) else t
  }

  function MarkReady(t: Tables, doc: Id, total: nat): Tables {
    Update(t, doc, (d: Document) => d.(status := Ready, totalPages := Some(total)))
  }

  function MarkFailed(t: Tables, doc: Id, message: string): Tables {
    Update(t, doc, (d: Document) => d.(status := Failed, errorMessage := Some(message)))
  }

  function SetPath(t: Tables, doc: Id, path: ObjectKey): Tables {
    Update(t, doc, (d: Document) => d.(path := Some(path)))
  }

  /** The upsert; the foreign key refuses a page of a missing document. */
  function SavePage(t: Tables, doc: Id, num: nat, path: ObjectKey, size: nat): (Tables, bool) {
    if doc in t.docs then (t.(pages := t.pages[PageId(doc, num) := PageRow(path, size)]), true) else (t, false)
  }

  function CreateWebhook(t: Tables, hook: Id, doc: Id): (Tables, bool) {
    if doc in t.docs then (t.(hooks := t.hooks[hook := doc]), true) else (t, false)
  }

  /** Deletes the owner's row; ON DELETE CASCADE takes its pages and webhooks with it. */
  function Delete(t: Tables, doc: Id, user: Id): (Tables, Option<Document>) {
    if doc in t.docs && t.docs[doc].owner == user then
      (Tables(t.docs - {doc},
              map p | p in t.pages && p.doc != doc :: t.pages[p],
              map h | h in t.hooks && t.hooks[h] != doc :: t.hooks[h]),
       Some(t.docs[doc]))
    else (t, None)
  }

  function Expire(d: Document, cutoff: int): Document {
    if d.status == Processing && d.createdAt < cutoff then
      d.(status := Failed, errorMessage := Some(TIMEOUT_MESSAGE))
    else d
  }

  function FailStuck(t: Tables, cutoff: int): Tables {
    t.(docs := map doc | doc in t.docs :: Expire(t.docs[doc], cutoff))
  }

  // ---------------------------------------------------------------- selecting pages in order

  datatype Entry = Entry(num: nat, row: PageRow)

  function NumsOf(pages: map<PageId, PageRow>, doc: Id): set<nat> {
    set p | p in pages && p.doc == doc :: p.num
  }

  lemma {:induction false} LeastExists(s: set<nat>, some: nat)
    requires some in s
    ensures exists m :: m in s && forall n | n in s :: m <= n
    decreases some
  {
    if n :| n in s && n < some {
      LeastExists(s, n);
    }
  }

  function Least(s: set<nat>): (m: nat)
    requires s != {}
    ensures m in s && forall n | n in s :: m <= n
  {
    assert exists m :: m in s && forall n | n in s :: m <= n by {
      var some :| some in s;
      LeastExists(s, some);
    }
    var m :| m in s && forall n | n in s :: m <= n;
    m
  }

  function Ascending(s: set<nat>): seq<nat> {
    if s == {} then []
    else
      var m := Least(s);
      [m] + Ascending(s - {m})
  }

  function Interval(lo: int, hi: int): seq<nat>
    requires lo >= 0
    decreases hi - lo
  {
    if lo > hi then [] else [lo] + Interval(lo + 1, hi)
  }

  lemma {:induction false} AscendingInterval(s: set<nat>, lo: int, hi: int)
    requires lo >= 0
    requires forall n :: n in s <==> lo <= n <= hi
    ensures Ascending(s) == Interval(lo, hi)
    decreases hi - lo
  {
    if lo <= hi {
      assert lo in s;
      assert Least(s) == lo;
      AscendingInterval(s - {lo}, lo + 1, hi);
    }
  }

  lemma {:induction false} AscendingMembers(s: set<nat>)
    ensures forall n :: n in Ascending(s) <==> n in s
    ensures forall i, j | 0 <= i < j < |Ascending(s)| :: Ascending(s)[i] < Ascending(s)[j]
  {
    if s != {} {
      var m := Least(s);
      AscendingMembers(s - {m});
      var rest := Ascending(s - {m});
      forall j | 0 <= j < |rest| ensures m < rest[j] {
        assert rest[j] in rest;
      }
    }
  }

  function RowsOf(pages: map<PageId, PageRow>, doc: Id, nums: seq<nat>): (rows: seq<Entry>)
    requires forall n | n in nums :: PageId(doc, n) in pages
    ensures |rows| == |nums|
    ensures forall i | 0 <= i < |rows| :: rows[i] == Entry(nums[i], pages[PageId(doc, nums[i])])
  {
    seq(|nums|, i requires 0 <= i < |nums| =>
      assert nums[i] in nums;
      Entry(nums[i], pages[PageId(doc, nums[i])]))
  }

  /** ... WHERE document_id = doc AND page_number BETWEEN lo AND hi ORDER BY page_number */
  function SelectRange(pages: map<PageId, PageRow>, doc: Id, lo: int, hi: int): seq<Entry> {
    var nums := set n | n in NumsOf(pages, doc) && lo <= n <= hi;
    AscendingMembers(nums);
    RowsOf(pages, doc, Ascending(nums))
  }

  function SelectAll(pages: map<PageId, PageRow>, doc: Id): seq<Entry> {
    AscendingMembers(NumsOf(pages, doc));
    RowsOf(pages, doc, Ascending(NumsOf(pages, doc)))
  }

  // ---------------------------------------------------------------- the store

  class DocumentStore {
    const ledger: L.MetadataStore
    var docs: map<Id, Document>
    var pages: map<PageId, PageRow>
    var hooks: map<Id, Id>

    function Contents(): Tables
      reads this
    {
      Tables(docs, pages, hooks)
    }

    constructor (ledger: L.MetadataStore)
      ensures this.ledger == ledger && Contents() == Tables(map[], map[], map[])
    {
      this.ledger := ledger;
      docs := map[];
      pages := map[];
      hooks := map[];
    }

    /** One transaction inserts the row and charges the user; both happen or neither. */
    method CreateDocument(doc: Id, owner: Id, size: nat, now: int) returns (ok: bool)
      requires doc !in docs
      modifies this`docs, ledger
      ensures ok <==> owner in old(ledger.users) && old(ledger.users)[owner].used + size <= L.MAX_INT64
      ensures if ok then Contents() == Insert(old(Contents()), doc, owner, now) else docs == old(docs)
      ensures docs - {doc} == old(docs)
      ensures ok ==> doc in docs && docs[doc] == Document(owner, None, Processing, None, None, now)
      ensures ledger.files == old(ledger.files) && ledger.users.Keys == old(ledger.users.Keys)
      ensures forall u | u in ledger.users ::
                && ledger.users[u].quota == old(ledger.users)[u].quota
                && ledger.users[u].used == old(ledger.users)[u].used + if ok && u == owner then size else 0
    {
      var before := docs;
      docs := docs[doc := Document(owner, None, Processing, None, None, now)];
      ok := ledger.Charge(owner, size);
      if !ok {
        docs := before;
      }
    }

    /** No guard on the status: a failed document becomes ready, and keeps its error message. */
    method MarkDocumentReady(doc: Id, total: nat)
      modifies this`docs
      ensures Contents() == MarkReady(old(Contents()), doc, total)
      ensures docs.Keys == old(docs.Keys) && docs - {doc} == old(docs) - {doc}
      ensures doc in docs ==> var d, was := docs[doc], old(docs)[doc];
                d.status == Ready && d.totalPages == Some(total) && d.errorMessage == was.errorMessage
                && d.owner == was.owner && d.path == was.path && d.createdAt == was.createdAt
    {
      if doc in docs {
        docs := docs[doc := docs[doc].(status := Ready, totalPages := Some(total))];
      }
    }

    /** No guard on the status: a ready document becomes failed, and keeps its page total. */
    method MarkDocumentFailed(doc: Id, message: string)
      modifies this`docs
      ensures Contents() == MarkFailed(old(Contents()), doc, message)
      ensures docs.Keys == old(docs.Keys) && docs - {doc} == old(docs) - {doc}
      ensures doc in docs ==> var d, was := docs[doc], old(docs)[doc];
                d.status == Failed && d.errorMessage == Some(message) && d.totalPages == was.totalPages
                && d.owner == was.owner && d.path == was.path && d.createdAt == was.createdAt
    {
      if doc in docs {
        docs := docs[doc := docs[doc].(status := Failed, errorMessage := Some(message))];
      }
    }

    method UpdateOriginalPath(doc: Id, path: ObjectKey)
      modifies this`docs
      ensures Contents() == SetPath(old(Contents()), doc, path)
      ensures docs.Keys == old(docs.Keys) && docs - {doc} == old(docs) - {doc}
      ensures doc in docs ==> var d, was := docs[doc], old(docs)[doc];
                d.path == Some(path) && d.status == was.status && d.totalPages == was.totalPages
                && d.errorMessage == was.errorMessage && d.owner == was.owner && d.createdAt == was.createdAt
    {
      if doc in docs {
        docs := docs[doc := docs[doc].(path := Some(path))];
      }
    }

    method UpsertPage(doc: Id, num: nat, path: ObjectKey, size: nat) returns (ok: bool)
      modifies this`pages
      ensures (Contents(), ok) == SavePage(old(Contents()), doc, num, path, size)
      ensures ok <==> doc in docs
      ensures pages - {PageId(doc, num)} == old(pages) - {PageId(doc, num)}
      ensures if ok then PageId(doc, num) in pages && pages[PageId(doc, num)] == PageRow(path, size)
              else pages == old(pages)
    {
      ok := doc in docs;
      if ok {
        pages := pages[PageId(doc, num) := PageRow(path, size)];
      }
    }

    method RegisterWebhook(hook: Id, doc: Id) returns (ok: bool)
      modifies this`hooks
      ensures (Contents(), ok) == CreateWebhook(old(Contents()), hook, doc)
      ensures ok <==> doc in docs
      ensures hooks - {hook} == old(hooks) - {hook}
      ensures if ok then hook in hooks && hooks[hook] == doc else hooks == old(hooks)
    {
      ok := doc in docs;
      if ok {
        hooks := hooks[hook := doc];
      }
    }

    method DeleteDocument(doc: Id, user: Id) returns (deleted: Option<Document>)
      modifies this`docs, this`pages, this`hooks
      ensures (Contents(), deleted) == Delete(old(Contents()), doc, user)
      ensures deleted.Some? <==> doc in old(docs) && old(docs)[doc].owner == user
      ensures deleted.None? ==> docs == old(docs) && pages == old(pages) && hooks == old(hooks)
      ensures deleted.Some? ==>
        && deleted.value == old(docs)[doc] && docs == old(docs) - {doc}
        && (forall p :: p in pages <==> p in old(pages) && p.doc != doc)
        && (forall p | p in pages :: pages[p] == old(pages)[p])
        && (forall h :: h in hooks <==> h in old(hooks) && old(hooks)[h] != doc)
        && (forall h | h in hooks :: hooks[h] == old(hooks)[h])
    {
      if doc !in docs || docs[doc].owner != user {
        return None;
      }
      deleted := Some(docs[doc]);
      docs := docs - {doc};
      pages := map p | p in pages && p.doc != doc :: pages[p];
      hooks := map h | h in hooks && hooks[h] != doc :: hooks[h];
    }

    /** Exactly the documents processing since before the cutoff fail; their other columns and all others stay. */
    method FailStuckDocuments(cutoff: int)
      modifies this`docs
      ensures Contents() == FailStuck(old(Contents()), cutoff)
      ensures docs.Keys == old(docs.Keys)
      ensures forall doc | doc in docs :: var was := old(docs)[doc];
                if was.status == Processing && was.createdAt < cutoff
                then docs[doc] == was.(status := Failed, errorMessage := Some(TIMEOUT_MESSAGE))
                else docs[doc] == was
    {
      docs := map doc | doc in docs :: Expire(docs[doc], cutoff);
    }
  }

  /** The watchdog's sweep: `now` is its clock reading, the cutoff lies `timeout` before it. */
  class Watchdog {
    const store: DocumentStore
    const timeout: nat

    constructor (store: DocumentStore, timeout: nat)
      ensures this.store == store && this.timeout == timeout
    {
      this.store := store;
      this.timeout := timeout;
    }

    method Sweep(now: int)
      modifies store`docs
      ensures store.docs.Keys == old(store.docs.Keys)
      ensures forall doc | doc in store.docs :: var before := old(store.docs)[doc];
                if before.status == Processing && now - before.createdAt > timeout
                then store.docs[doc].status == Failed && store.docs[doc].errorMessage == Some(TIMEOUT_MESSAGE)
                else store.docs[doc] == before
    {
      store.FailStuckDocuments(now - timeout);
    }
  }
}
