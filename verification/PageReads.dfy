/** Reading the pages of a ready document: the whole listing, and a range streamed as an archive. */
module PageReads {
  import opened Options
  import opened Keys
  import opened Documents

  datatype Outcome = Done | NoDocument | NotReady | BadRange | NoPages | Unreachable(num: nat)

  /** The bounds after clamping. */
  function Low(start: int): nat {
    if start < 1 then 1 else start
  }

  function High(total: Option<nat>, end: int): int {
    if total.Some? && end > total.value then total.value else end
  }

  /** How far a loop over the rows gets before the first object that cannot be presigned and fetched. */
  function ReachablePrefix(rows: seq<Entry>, reachable: set<ObjectKey>): (k: nat)
    ensures k <= |rows|
    ensures forall i | 0 <= i < k :: rows[i].row.path in reachable
    ensures k < |rows| ==> rows[k].row.path !in reachable
  {
    if rows == [] || rows[0].row.path !in reachable then 0 else 1 + ReachablePrefix(rows[1..], reachable)
  }

  lemma {:induction false} PrefixIs(rows: seq<Entry>, reachable: set<ObjectKey>, k: nat)
    requires k <= |rows|
    requires forall i | 0 <= i < k :: rows[i].row.path in reachable
    requires k < |rows| ==> rows[k].row.path !in reachable
    ensures ReachablePrefix(rows, reachable) == k
  {
    if k > 0 {
      PrefixIs(rows[1..], reachable, k - 1);
    }
  }

  /** What a loop over these rows writes, and how it ends. */
  function Streamed(rows: seq<Entry>, reachable: set<ObjectKey>): (seq<Entry>, Outcome) {
    var k := ReachablePrefix(rows, reachable);
    if k == |rows| then (rows, Done) else (rows[..k], Unreachable(rows[k].num))
  }

  predicate Readable(t: Tables, doc: Id, user: Id) {
    doc in t.docs && t.docs[doc].owner == user
  }

  function RangeSpec(t: Tables, doc: Id, user: Id, start: int, end: int, reachable: set<ObjectKey>)
    : (seq<Entry>, Outcome)
  {
    if !Readable(t, doc, user) then ([], NoDocument) else RangeOf(t.docs[doc], t.pages, doc, start, end, reachable)
  }

  /** The rest of the call, given the document row that it has read and the page rows that it then finds. */
  function RangeOf(d: Document, pages: map<PageId, PageRow>, doc: Id, start: int, end: int, reachable: set<ObjectKey>)
    : (seq<Entry>, Outcome)
  {
    if d.status != Ready then ([], NotReady)
    else
      var lo, hi := Low(start), High(d.totalPages, end);
      if lo > hi then ([], BadRange)
      else
        var rows := SelectRange(pages, doc, lo, hi);
        if rows == [] then ([], NoPages) else Streamed(rows, reachable)
  }

  function ListSpec(t: Tables, doc: Id, user: Id, reachable: set<ObjectKey>): (seq<Entry>, Outcome) {
    if !Readable(t, doc, user) then ([], NoDocument)
    else if t.docs[doc].status != Ready then ([], NotReady)
    else
      var rows := SelectAll(t.pages, doc);
      if ReachablePrefix(rows, reachable) == |rows| then (rows, Done)
      else ([], Unreachable(rows[ReachablePrefix(rows, reachable)].num))
  }

  // ---------------------------------------------------------------- what a caller gets

  ghost predicate IsPage(pages: map<PageId, PageRow>, doc: Id, num: nat, e: Entry) {
    PageId(doc, num) in pages && e == Entry(num, pages[PageId(doc, num)])
  }

  /** These are the rows of the document with numbers from lo to hi, each once, in ascending order. */
  ghost predicate Lists(pages: map<PageId, PageRow>, doc: Id, lo: int, hi: int, rows: seq<Entry>) {
    && (forall i, j | 0 <= i < j < |rows| :: rows[i].num < rows[j].num)
    && (forall i | 0 <= i < |rows| :: lo <= rows[i].num <= hi && IsPage(pages, doc, rows[i].num, rows[i]))
    && (forall n: nat | lo <= n <= hi && PageId(doc, n) in pages :: Entry(n, pages[PageId(doc, n)]) in rows)
  }

  lemma SelectRangeLists(pages: map<PageId, PageRow>, doc: Id, lo: int, hi: int)
    ensures Lists(pages, doc, lo, hi, SelectRange(pages, doc, lo, hi))
  {
    var wanted := set n | n in NumsOf(pages, doc) && lo <= n <= hi;
    AscendingMembers(wanted);
    var rows, nums := SelectRange(pages, doc, lo, hi), Ascending(wanted);
    forall i | 0 <= i < |rows| ensures lo <= rows[i].num <= hi && IsPage(pages, doc, rows[i].num, rows[i]) {
      assert nums[i] in nums;
    }
    forall n: nat | lo <= n <= hi && PageId(doc, n) in pages ensures Entry(n, pages[PageId(doc, n)]) in rows {
      assert n in NumsOf(pages, doc) && n in nums;
      var i :| 0 <= i < |nums| && nums[i] == n;
      assert rows[i] == Entry(n, pages[PageId(doc, n)]);
    }
  }

  lemma SelectAllLists(pages: map<PageId, PageRow>, doc: Id, hi: int)
    requires forall n | n in NumsOf(pages, doc) :: n <= hi
    ensures SelectAll(pages, doc) == SelectRange(pages, doc, 0, hi)
  {
    assert (set n | n in NumsOf(pages, doc) && 0 <= n <= hi) == NumsOf(pages, doc);
  }

  /** A listing cut off before one of its rows is the listing up to that row. */
  lemma ListsPrefix(pages: map<PageId, PageRow>, doc: Id, lo: int, hi: int, rows: seq<Entry>, k: nat)
    requires Lists(pages, doc, lo, hi, rows) && k < |rows|
    ensures Lists(pages, doc, lo, rows[k].num - 1, rows[..k])
  {
    forall n: nat | lo <= n <= rows[k].num - 1 && PageId(doc, n) in pages
      ensures Entry(n, pages[PageId(doc, n)]) in rows[..k]
    {
      var i :| 0 <= i < |rows| && rows[i] == Entry(n, pages[PageId(doc, n)]);
      assert i < k;
    }
  }

  ghost predicate AllReachable(rows: seq<Entry>, reachable: set<ObjectKey>) {
    forall i | 0 <= i < |rows| :: rows[i].row.path in reachable
  }

  /** A page of the document from lo to hi cannot be fetched, and it is the first one. */
  ghost predicate FailsAt(pages: map<PageId, PageRow>, doc: Id, lo: int, hi: int, reachable: set<ObjectKey>, n: nat) {
    && lo <= n <= hi && PageId(doc, n) in pages && pages[PageId(doc, n)].path !in reachable
    && forall m: nat | lo <= m < n && PageId(doc, m) in pages :: pages[PageId(doc, m)].path in reachable
  }

  /** What the owner of a ready document gets for the pages from lo to hi. */
  ghost predicate Answers(pages: map<PageId, PageRow>, doc: Id, lo: int, hi: int, reachable: set<ObjectKey>,
                          archive: seq<Entry>, outcome: Outcome)
  {
    match outcome
    case BadRange => archive == [] && lo > hi
    case NoPages => archive == [] && lo <= hi && forall n: nat | lo <= n <= hi :: PageId(doc, n) !in pages
    case Unreachable(n) => Lists(pages, doc, lo, n - 1, archive) && FailsAt(pages, doc, lo, hi, reachable, n)
    case Done => archive != [] && Lists(pages, doc, lo, hi, archive) && AllReachable(archive, reachable)
    case _ => false
  }

  lemma RangeAnswers(
    d: Document, pages: map<PageId, PageRow>, doc: Id, start: int, end: int, reachable: set<ObjectKey>)
    requires d.status == Ready
    ensures var (archive, outcome) := RangeOf(d, pages, doc, start, end, reachable);
            var lo, hi := if start < 1 then 1 else start,
                          if d.totalPages.Some? && d.totalPages.value < end then d.totalPages.value else end;
            Answers(pages, doc, lo, hi, reachable, archive, outcome)
  {
    var lo, hi := Low(start), High(d.totalPages, end);
    if lo <= hi {
      var rows := SelectRange(pages, doc, lo, hi);
      SelectRangeLists(pages, doc, lo, hi);
      var k := ReachablePrefix(rows, reachable);
      if rows != [] && k < |rows| {
        ListsPrefix(pages, doc, lo, hi, rows, k);
        FirstUnreachable(pages, doc, lo, hi, rows, reachable, k);
      }
    }
  }

  lemma FirstUnreachable(
    pages: map<PageId, PageRow>, doc: Id, lo: int, hi: int, rows: seq<Entry>, reachable: set<ObjectKey>, k: nat)
    requires Lists(pages, doc, lo, hi, rows) && k < |rows| && AllReachable(rows[..k], reachable)
    requires rows[k].row.path !in reachable
    ensures FailsAt(pages, doc, lo, hi, reachable, rows[k].num)
  {
    forall m: nat | lo <= m < rows[k].num && PageId(doc, m) in pages ensures pages[PageId(doc, m)].path in reachable {
      var i :| 0 <= i < |rows| && rows[i] == Entry(m, pages[PageId(doc, m)]);
      assert i < k && rows[..k][i] == rows[i];
    }
  }

  /** What the owner of a ready document gets for a listing. */
  ghost predicate AnswersAll(pages: map<PageId, PageRow>, doc: Id, reachable: set<ObjectKey>,
                             rows: seq<Entry>, outcome: Outcome)
  {
    match outcome
    case Done => ListsAll(pages, doc, rows) && AllReachable(rows, reachable)
    case Unreachable(n) => rows == [] && FailsAt(pages, doc, 0, n, reachable, n)
    case _ => false
  }

  ghost predicate ListsAll(pages: map<PageId, PageRow>, doc: Id, rows: seq<Entry>) {
    && (forall i, j | 0 <= i < j < |rows| :: rows[i].num < rows[j].num)
    && (forall i | 0 <= i < |rows| :: IsPage(pages, doc, rows[i].num, rows[i]))
    && (forall n: nat | PageId(doc, n) in pages :: Entry(n, pages[PageId(doc, n)]) in rows)
  }

  lemma HighestNum(pages: map<PageId, PageRow>, doc: Id) returns (hi: nat)
    ensures forall n: nat | PageId(doc, n) in pages :: n <= hi
  {
    var nums := Ascending(NumsOf(pages, doc));
    AscendingMembers(NumsOf(pages, doc));
    hi := if nums == [] then 0 else nums[|nums| - 1];
    forall n: nat | PageId(doc, n) in pages ensures n <= hi {
      assert n in NumsOf(pages, doc) && n in nums;
      var i :| 0 <= i < |nums| && nums[i] == n;
    }
  }

  lemma ListAnswers(pages: map<PageId, PageRow>, doc: Id, reachable: set<ObjectKey>)
    ensures var rows := SelectAll(pages, doc);
            var k := ReachablePrefix(rows, reachable);
            && ListsAll(pages, doc, rows)
            && (k < |rows| ==> FailsAt(pages, doc, 0, rows[k].num, reachable, rows[k].num))
  {
    var hi := HighestNum(pages, doc);
    SelectAllLists(pages, doc, hi);
    SelectRangeLists(pages, doc, 0, hi);
    var rows := SelectAll(pages, doc);
    var k := ReachablePrefix(rows, reachable);
    if k < |rows| {
      FirstUnreachable(pages, doc, 0, hi, rows, reachable, k);
    }
  }

  class PageReader {
    const store: DocumentStore

    constructor (store: DocumentStore)
      ensures this.store == store
    {
      this.store := store;
    }

    /** `reachable` holds the objects whose presigning and download succeed during this call. */
    method GetPageRange(doc: Id, user: Id, start: int, end: int, reachable: set<ObjectKey>)
      returns (archive: seq<Entry>, outcome: Outcome)
      ensures (archive, outcome) == RangeSpec(store.Contents(), doc, user, start, end, reachable)
      ensures outcome == NoDocument <==> !(doc in store.docs && store.docs[doc].owner == user)
      ensures outcome == NotReady <==>
              doc in store.docs && store.docs[doc].owner == user && store.docs[doc].status != Ready
      ensures outcome == NoDocument || outcome == NotReady ==> archive == []
      ensures outcome != NoDocument && outcome != NotReady ==>
              var total := store.docs[doc].totalPages;
              var lo := if start < 1 then 1 else start;
              var hi := if total.Some? && total.value < end then total.value else end;
              Answers(store.pages, doc, lo, hi, reachable, archive, outcome)
    {
      if doc !in store.docs || store.docs[doc].owner != user {
        return [], NoDocument;
      }
      var d := store.docs[doc];
      if d.status != Ready {
        return [], NotReady;
      }
      RangeAnswers(d, store.pages, doc, start, end, reachable);
      var lo, hi := start, end;
      if d.totalPages.Some? && hi > d.totalPages.value {
        hi := d.totalPages.value;
      }
      if lo < 1 {
        lo := 1;
      }
      if lo > hi {
        return [], BadRange;
      }
      var rows := SelectRange(store.pages, doc, lo, hi);
      if |rows| == 0 {
        return [], NoPages;
      }
      archive, outcome := Stream(rows, reachable);
    }

    /** The loop over the rows: presigns, fetches and writes one page after the other. */
    method Stream(rows: seq<Entry>, reachable: set<ObjectKey>) returns (archive: seq<Entry>, outcome: Outcome)
      ensures (archive, outcome) == Streamed(rows, reachable)
    {
      archive := [];
      for i := 0 to |rows|
        invariant archive == rows[..i]
        invariant forall j | 0 <= j < i :: rows[j].row.path in reachable
      {
        if rows[i].row.path !in reachable {
          PrefixIs(rows, reachable, i);
          return archive, Unreachable(rows[i].num);
        }
        archive := archive + [rows[i]];
      }
      assert archive == rows;
      PrefixIs(rows, reachable, |rows|);
      outcome := Done;
    }

    method ListPages(doc: Id, user: Id, reachable: set<ObjectKey>) returns (pages: seq<Entry>, outcome: Outcome)
      ensures (pages, outcome) == ListSpec(store.Contents(), doc, user, reachable)
      ensures outcome == NoDocument <==> !(doc in store.docs && store.docs[doc].owner == user)
      ensures outcome == NotReady <==>
              doc in store.docs && store.docs[doc].owner == user && store.docs[doc].status != Ready
      ensures outcome != Done ==> pages == []
      ensures outcome != NoDocument && outcome != NotReady ==>
              AnswersAll(store.pages, doc, reachable, pages, outcome)
    {
      if doc !in store.docs || store.docs[doc].owner != user {
        return [], NoDocument;
      }
      if store.docs[doc].status != Ready {
        return [], NotReady;
      }
      ListAnswers(store.pages, doc, reachable);
      var rows := SelectAll(store.pages, doc);
      pages := [];
      for i := 0 to |rows|
        invariant pages == rows[..i]
        invariant forall j | 0 <= j < i :: rows[j].row.path in reachable
      {
        if rows[i].row.path !in reachable {
          PrefixIs(rows, reachable, i);
          return [], Unreachable(rows[i].num);
        }
        pages := pages + [rows[i]];
      }
      assert pages == rows;
      PrefixIs(rows, reachable, |rows|);
      outcome := Done;
    }
  }

  // ---------------------------------------------------------------- what a ready document yields

  /** There is a row for exactly each page from 1 to the total. */
  ghost predicate HasPages(pages: map<PageId, PageRow>, doc: Id, total: nat) {
    forall n :: n in NumsOf(pages, doc) <==> 1 <= n <= total
  }

  /** A ready document with all its pages; every reachable ready document is one. */
  ghost predicate Complete(t: Tables, doc: Id) {
    && doc in t.docs && t.docs[doc].status == Ready && t.docs[doc].totalPages.Some?
    && HasPages(t.pages, doc, t.docs[doc].totalPages.value)
  }

  lemma RangeIsInterval(pages: map<PageId, PageRow>, doc: Id, total: nat, lo: int, hi: int)
    requires HasPages(pages, doc, total) && 1 <= lo && hi <= total
    ensures forall n | n in Interval(lo, hi) :: PageId(doc, n) in pages
    ensures SelectRange(pages, doc, lo, hi) == RowsOf(pages, doc, Interval(lo, hi))
  {
    var nums := set n | n in NumsOf(pages, doc) && lo <= n <= hi;
    AscendingInterval(nums, lo, hi);
    AscendingMembers(nums);
  }

  lemma {:induction false} IntervalLength(lo: int, hi: int)
    requires lo >= 0
    ensures |Interval(lo, hi)| == if lo > hi then 0 else hi - lo + 1
    ensures forall i | 0 <= i < |Interval(lo, hi)| :: Interval(lo, hi)[i] == lo + i
    decreases hi - lo
  {
    if lo <= hi {
      IntervalLength(lo + 1, hi);
    }
  }

  /**
   * For a ready document of N pages whose objects can be fetched, a range yields the pages max(start, 1) to
   * min(end, N), each once and in order, and it is refused exactly when that interval is empty.
   */
  lemma RangeExact(
    d: Document, pages: map<PageId, PageRow>, doc: Id, start: int, end: int, reachable: set<ObjectKey>)
    requires d.status == Ready && d.totalPages.Some? && HasPages(pages, doc, d.totalPages.value)
    requires forall p | p in pages && p.doc == doc :: pages[p].path in reachable
    ensures var total := d.totalPages.value;
            var lo, hi := Low(start), if end > total then total else end;
            var (archive, outcome) := RangeOf(d, pages, doc, start, end, reachable);
            if lo > hi then outcome == BadRange && archive == []
            else
              && outcome == Done && |archive| == hi - lo + 1
              && forall i | 0 <= i < |archive| :: IsPage(pages, doc, lo + i, archive[i])
  {
    var total := d.totalPages.value;
    var lo, hi := Low(start), if end > total then total else end;
    if lo <= hi {
      RangeIsInterval(pages, doc, total, lo, hi);
      IntervalLength(lo, hi);
      var rows := SelectRange(pages, doc, lo, hi);
      forall i | 0 <= i < |rows| ensures IsPage(pages, doc, lo + i, rows[i]) {
        assert Interval(lo, hi)[i] == lo + i;
        assert Interval(lo, hi)[i] in Interval(lo, hi);
      }
      PrefixIs(rows, reachable, |rows|);
      assert RangeOf(d, pages, doc, start, end, reachable) == (rows, Done);
    }
  }

  /** Adjacent ranges concatenate to the combined range, wherever their bounds lie and even where a half is empty. */
  lemma RangesConcatenate(t: Tables, doc: Id, user: Id, a: int, b: int, c: int, reachable: set<ObjectKey>)
    requires Complete(t, doc) && t.docs[doc].owner == user
    requires forall p | p in t.pages && p.doc == doc :: t.pages[p].path in reachable
    requires a <= b + 1 && b <= c
    ensures RangeSpec(t, doc, user, a, b, reachable).0 + RangeSpec(t, doc, user, b + 1, c, reachable).0
         == RangeSpec(t, doc, user, a, c, reachable).0
  {
    var d := t.docs[doc];
    RangeExact(d, t.pages, doc, a, b, reachable);
    RangeExact(d, t.pages, doc, b + 1, c, reachable);
    RangeExact(d, t.pages, doc, a, c, reachable);
  }

  /** The range 1..N is the listing. */
  lemma WholeRangeIsListing(t: Tables, doc: Id, user: Id, reachable: set<ObjectKey>)
    requires Complete(t, doc) && t.docs[doc].owner == user
    requires forall p | p in t.pages && p.doc == doc :: t.pages[p].path in reachable
    requires t.docs[doc].totalPages.value >= 1
    ensures RangeSpec(t, doc, user, 1, t.docs[doc].totalPages.value, reachable) == ListSpec(t, doc, user, reachable)
  {
    var total := t.docs[doc].totalPages.value;
    RangeExact(t.docs[doc], t.pages, doc, 1, total, reachable);
    RangeIsInterval(t.pages, doc, total, 1, total);
    AscendingInterval(NumsOf(t.pages, doc), 1, total);
    var rows := SelectAll(t.pages, doc);
    forall i | 0 <= i < |rows| ensures rows[i].row.path in reachable {
      assert Interval(1, total)[i] in Interval(1, total);
      assert PageId(doc, rows[i].num) in t.pages;
    }
    PrefixIs(rows, reachable, |rows|);
  }
}
