/** What holds in every reachable state of the document protocol, and over every run of it. */
module ExtractionRuns {
  import opened Options
  import opened Keys
  import opened Documents
  import opened PageReads
  import opened Worlds
  import opened Extraction

  datatype History = History(states: seq<System>, actions: seq<Action>)

  ghost predicate IsHistory(h: History) {
    && |h.states| == |h.actions| + 1
    && Initial(h.states[0])
    && forall i | 0 <= i < |h.actions| :: StepAt(h, i)
  }

  ghost predicate StepAt(h: History, i: nat)
    requires |h.states| == |h.actions| + 1 && i < |h.actions|
  {
    Extraction.Enabled(h.states[i], h.actions[i]) && h.states[i + 1] == Apply(h.states[i], h.actions[i])
  }

  /** No documents and nobody at work; files of the file service may be stored; the watchdog starts its clock. */
  ghost predicate Initial(s: System) {
    && s.w.tables == Tables(map[], map[], map[]) && s.w.ever == {} && s.w.queued == {}
    && (forall k | Holds(s.w, k) :: k.File?)
    && s.w.lastSweep == s.w.now
    && s.uploads == map[] && s.runs == map[] && s.deletions == map[]
  }

  lemma {:induction false} Reachable(h: History, k: nat)
    requires IsHistory(h) && k <= |h.actions|
    ensures Extraction.Inv(h.states[k])
    ensures h.states[k].w.timeout == h.states[0].w.timeout
  {
    if k > 0 {
      Reachable(h, k - 1);
      assert StepAt(h, k - 1);
      StepKeeps(h.states[k - 1], h.actions[k - 1]);
      TimeoutStays(h.states[k - 1], h.actions[k - 1]);
    }
  }

  lemma TimeoutStays(s: System, a: Action)
    requires Extraction.Enabled(s, a)
    ensures Apply(s, a).w.timeout == s.w.timeout
  {
  }

  // ---------------------------------------------------------------- in every reachable state

  /** A ready document has page rows for exactly 1..total_pages, and it has at least one page and an original. */
  lemma ReadyIsComplete(h: History, k: nat, doc: Id)
    requires IsHistory(h) && k <= |h.actions|
    requires var t := h.states[k].w.tables; doc in t.docs && t.docs[doc].status == Ready
    ensures Complete(h.states[k].w.tables, doc)
    ensures var d := h.states[k].w.tables.docs[doc]; d.totalPages.value >= 1 && d.path == Some(Original(doc))
  {
    Reachable(h, k);
    assert Exists(h.states[k].w, doc) && DocumentInv(h.states[k].w, doc);
    TotalMeansPages(h, k, doc);
  }

  /** So has any document with a page total, whatever its status. */
  lemma TotalMeansPages(h: History, k: nat, doc: Id)
    requires IsHistory(h) && k <= |h.actions|
    requires Exists(h.states[k].w, doc) && Doc(h.states[k].w, doc).totalPages.Some?
    ensures HasPages(h.states[k].w.tables.pages, doc, Doc(h.states[k].w, doc).totalPages.value)
  {
    Reachable(h, k);
    var w := h.states[k].w;
    assert DocumentInv(w, doc);
    forall n ensures n in NumsOf(w.tables.pages, doc) <==> 1 <= n <= Doc(w, doc).totalPages.value {
      if n in NumsOf(w.tables.pages, doc) {
        assert PageInv(w, PageId(doc, n));
      }
      if 1 <= n <= Doc(w, doc).totalPages.value {
        assert PageId(doc, n) in w.tables.pages;
      }
    }
  }

  /** Every page row points at its own stored object, and every original path at the stored original. */
  lemma RowsPointAtObjects(h: History, k: nat)
    requires IsHistory(h) && k <= |h.actions|
    ensures var w := h.states[k].w;
            && (forall p | p in w.tables.pages ::
                  w.tables.pages[p].path == Page(p.doc, p.num) && Page(p.doc, p.num) in w.bucket)
            && (forall d | d in w.tables.docs && w.tables.docs[d].path.Some? ::
                  w.tables.docs[d].path.value == Original(d) && Original(d) in w.bucket)
  {
    Reachable(h, k);
    var w := h.states[k].w;
    forall p | p in w.tables.pages
      ensures w.tables.pages[p].path == Page(p.doc, p.num) && Page(p.doc, p.num) in w.bucket
    {
      assert PageInv(w, p);
    }
    forall d | d in w.tables.docs && w.tables.docs[d].path.Some?
      ensures w.tables.docs[d].path.value == Original(d) && Original(d) in w.bucket
    {
      assert Exists(w, d) && DocumentInv(w, d);
    }
  }

  /** The same, said of the bucket's strings: the formatted key of every page row is a key of the store. */
  lemma FormattedKeysAreStored(h: History, k: nat, p: PageId)
    requires IsHistory(h) && k <= |h.actions| && p in h.states[k].w.tables.pages
    ensures Format(h.states[k].w.tables.pages[p].path) in ByString(h.states[k].w.bucket)
    ensures forall q | q in h.states[k].w.tables.pages && q != p ::
              Format(h.states[k].w.tables.pages[q].path) != Format(h.states[k].w.tables.pages[p].path)
  {
    RowsPointAtObjects(h, k);
    var w := h.states[k].w;
    BucketByString(w.bucket, w.tables.pages[p].path, 0);
    FormatInjectiveForAll();
  }

  /** And so is that of every original path, which no other document and no page row shares. */
  lemma FormattedPathsAreStored(h: History, k: nat, d: Id)
    requires IsHistory(h) && k <= |h.actions| && HasPath(h.states[k].w, d)
    ensures Format(Doc(h.states[k].w, d).path.value) in ByString(h.states[k].w.bucket)
    ensures forall e | e != d && HasPath(h.states[k].w, e) ::
              Format(Doc(h.states[k].w, e).path.value) != Format(Doc(h.states[k].w, d).path.value)
    ensures forall p | p in h.states[k].w.tables.pages ::
              Format(h.states[k].w.tables.pages[p].path) != Format(Doc(h.states[k].w, d).path.value)
  {
    RowsPointAtObjects(h, k);
    var w := h.states[k].w;
    assert Doc(w, d).path.value == Original(d);
    BucketByString(w.bucket, Original(d), 0);
    FormatInjectiveForAll();
  }

  /** Processing has neither page total nor message, failed has a message, pages and webhooks belong to a row. */
  lemma StatusColumns(h: History, k: nat)
    requires IsHistory(h) && k <= |h.actions|
    ensures var t := h.states[k].w.tables;
            && (forall d | d in t.docs && t.docs[d].status == Processing ::
                  t.docs[d].totalPages.None? && t.docs[d].errorMessage.None?)
            && (forall d | d in t.docs && t.docs[d].status == Failed :: t.docs[d].errorMessage.Some?)
            && (forall p | p in t.pages :: p.doc in t.docs)
            && (forall g | g in t.hooks :: t.hooks[g] in t.docs)
  {
    Reachable(h, k);
    var w := h.states[k].w;
    forall d | d in w.tables.docs ensures DocumentInv(w, d) {
      assert Exists(w, d);
    }
    forall p | p in w.tables.pages ensures p.doc in w.tables.docs {
      assert PageInv(w, p);
    }
  }

  /** MarkReady is reached only when a living document has every page row, with the page count of its original. */
  lemma MarkReadyAfterAllRows(h: History, k: nat, r: Id)
    requires IsHistory(h) && k <= |h.actions| && r in h.states[k].runs && h.states[k].runs[r].Marking?
    requires Exists(h.states[k].w, h.states[k].runs[r].doc)
    ensures var w, run := h.states[k].w, h.states[k].runs[r];
            && Original(run.doc) in w.bucket && run.total == w.bucket[Original(run.doc)] >= 1
            && forall n | 1 <= n <= run.total :: PageId(run.doc, n) in w.tables.pages
  {
    Reachable(h, k);
    var w, run := h.states[k].w, h.states[k].runs[r];
    assert RunInv(w, run) && DocumentInv(w, run.doc);
  }

  // ---------------------------------------------------------------- complete cleanup

  /** Only its own statements move a deletion on. */
  lemma DeletionMoves(s: System, a: Action, x: Id)
    requires Extraction.Enabled(s, a) && x in s.deletions
    requires !(a.DeleteRow? && a.id == x) && !(a.RemoveNext? && a.id == x)
    ensures x in Apply(s, a).deletions && Apply(s, a).deletions[x] == s.deletions[x]
  {
  }

  lemma {:induction false} ListingStays(h: History, i: nat, j: nat, x: Id)
    requires IsHistory(h) && i <= j <= |h.actions| && x in h.states[i].deletions && h.states[i].deletions[x].Listed?
    requires forall m | i <= m < j :: !(h.actions[m].DeleteRow? && h.actions[m].id == x)
    ensures x in h.states[j].deletions && h.states[j].deletions[x] == h.states[i].deletions[x]
    decreases j
  {
    if i < j {
      ListingStays(h, i, j - 1, x);
      assert StepAt(h, j - 1);
      DeletionMoves(h.states[j - 1], h.actions[j - 1], x);
    }
  }

  /** Step m of the loop of deletion x fails to remove this object. */
  ghost predicate FailsToRemove(h: History, m: nat, x: Id, key: ObjectKey) {
    && m < |h.actions| && m < |h.states| && h.actions[m] == RemoveNext(x, false) && x in h.states[m].deletions
    && h.states[m].deletions[x].Cleaning? && h.states[m].deletions[x].remaining != []
    && key == h.states[m].deletions[x].remaining[0]
  }

  lemma {:induction false} CleaningStaysClean(h: History, j: nat, k: nat, x: Id)
    requires IsHistory(h) && j <= k <= |h.actions| && x in h.states[j].deletions
    requires var d := h.states[j].deletions[x]; d.Cleaning? && d.clean && d.failed == {}
    ensures x in h.states[k].deletions
    ensures var d := h.states[k].deletions[x];
            && d.Cleaning? && d.clean && d.doc == h.states[j].deletions[x].doc
            && forall key | key in d.failed :: exists m | j <= m < k :: FailsToRemove(h, m, x, key)
    decreases k
  {
    if j < k {
      CleaningStaysClean(h, j, k - 1, x);
      assert StepAt(h, k - 1);
      var s, a := h.states[k - 1], h.actions[k - 1];
      if a.RemoveNext? && a.id == x {
        if !a.ok {
          assert FailsToRemove(h, k - 1, x, s.deletions[x].remaining[0]);
        }
      } else {
        DeletionMoves(s, a, x);
      }
    }
  }

  /** Deletion x lists its document's pages at step i, when it is ready, and deletes the row at step j. */
  ghost predicate Deletes(h: History, i: nat, j: nat, x: Id, doc: Id) {
    && IsHistory(h) && i < j < |h.actions|
    && h.actions[i].ListForDelete? && h.actions[i].id == x && h.actions[i].doc == doc
    && Exists(h.states[i].w, doc) && Doc(h.states[i].w, doc).status == Ready
    && (forall m | i < m < j :: !(h.actions[m].DeleteRow? && h.actions[m].id == x))
    && h.actions[j] == DeleteRow(x, true)
    && Exists(h.states[j].w, doc) && Doc(h.states[j].w, doc).owner == h.actions[i].user
  }

  /** By step k its list has been worked off, and no removal has failed. */
  ghost predicate WorkedOff(h: History, j: nat, k: nat, x: Id) {
    && IsHistory(h) && j < k <= |h.actions|
    && (forall m | j < m < k :: !FailedRemoval(h.actions[m], x))
    && x in h.states[k].deletions && h.states[k].deletions[x].Cleaning? && h.states[k].deletions[x].remaining == []
  }

  predicate FailedRemoval(a: Action, x: Id) {
    a.RemoveNext? && a.id == x && !a.ok
  }

  /** No object of the document is stored. */
  ghost predicate Gone(w: World, doc: Id) {
    forall key | key in w.bucket && !key.File? :: key.doc != doc
  }

  /**
   * Cleanup is best-effort but goes through: if no run could store a page any more when the row of a ready document was
   * deleted, then by the time the list is worked off only objects whose removal has failed are left of the document,
   * whatever everybody else did meanwhile.
   */
  lemma CleanupLeavesOnlyFailures(h: History, i: nat, j: nat, k: nat, x: Id, doc: Id)
    requires Deletes(h, i, j, x, doc) && j < k <= |h.actions| && NoStoreOn(h.states[j], doc)
    requires x in h.states[k].deletions && h.states[k].deletions[x].Cleaning?
    requires h.states[k].deletions[x].remaining == []
    ensures forall key | key in h.states[k].w.bucket && !key.File? && key.doc == doc ::
              exists m | j < m < k :: FailsToRemove(h, m, x, key)
  {
    assert StepAt(h, i);
    ListingStays(h, i + 1, j, x);
    assert StepAt(h, j);
    CleaningStaysClean(h, j + 1, k, x);
    Reachable(h, k);
    var s := h.states[k];
    assert DeletionInv(s.w, s.deletions[x]);
    forall key | key in s.w.bucket && !key.File? && key.doc == doc
      ensures exists m | j < m < k :: FailsToRemove(h, m, x, key)
    {
      assert Holds(s.w, key);
    }
  }

  /** So with no failed removal nothing is left. */
  lemma CleanupIsComplete(h: History, i: nat, j: nat, k: nat, x: Id, doc: Id)
    requires Deletes(h, i, j, x, doc) && WorkedOff(h, j, k, x) && NoStoreOn(h.states[j], doc)
    ensures Gone(h.states[k].w, doc)
  {
    CleanupLeavesOnlyFailures(h, i, j, k, x, doc);
  }

  // ---------------------------------------------------------------- the watchdog

  /**
   * While the last successful sweep read the clock at most `interval` ago, no document has been processing for more
   * than timeout + interval.
   */
  lemma WatchdogBound(h: History, k: nat, doc: Id, interval: nat)
    requires IsHistory(h) && k <= |h.actions|
    requires h.states[k].w.now - h.states[k].w.lastSweep <= interval
    requires var t := h.states[k].w.tables; doc in t.docs && t.docs[doc].status == Processing
    ensures h.states[k].w.now - h.states[k].w.tables.docs[doc].createdAt <= h.states[0].w.timeout + interval
  {
    Reachable(h, k);
    assert Exists(h.states[k].w, doc) && DocumentInv(h.states[k].w, doc);
  }

  /** As main wires it, with a timeout of m >= 2 minutes and a sweep every m / 2, that is one and a half timeouts. */
  lemma WatchdogBoundAsWired(h: History, k: nat, doc: Id, minutes: nat, minute: nat)
    requires IsHistory(h) && k <= |h.actions| && minutes >= 2
    requires h.states[0].w.timeout == minutes * minute
    requires h.states[k].w.now - h.states[k].w.lastSweep <= minutes / 2 * minute
    requires var t := h.states[k].w.tables; doc in t.docs && t.docs[doc].status == Processing
    ensures 2 * (h.states[k].w.now - h.states[k].w.tables.docs[doc].createdAt) <= 3 * (minutes * minute)
  {
    HalfTwice(minutes, minutes / 2, minute);
    WatchdogBound(h, k, doc, minutes / 2 * minute);
  }

  lemma HalfTwice(minutes: nat, half: nat, minute: nat)
    requires 2 * half <= minutes
    ensures half * minute >= 0 && 2 * (half * minute) <= minutes * minute
  {
    assert (minutes - 2 * half) * minute >= 0;
  }

  // ---------------------------------------------------------------- over every run

  /** A known id stays known, and no step gives it a row that it does not have. */
  lemma StepRevivesNothing(s: System, a: Action, doc: Id)
    requires Extraction.Enabled(s, a) && doc in s.w.ever
    ensures doc in Apply(s, a).w.ever
    ensures Exists(Apply(s, a).w, doc) ==> Exists(s.w, doc)
  {
  }

  lemma StepRestartsNothing(s: System, a: Action, doc: Id)
    requires Extraction.Enabled(s, a) && doc in s.w.ever && Exists(s.w, doc)
    ensures Exists(Apply(s, a).w, doc) && Doc(s.w, doc).status != Processing ==>
            Doc(Apply(s, a).w, doc).status != Processing
  {
  }

  /** A document never re-enters processing. */
  lemma {:induction false} NeverProcessingAgain(h: History, i: nat, j: nat, doc: Id)
    requires IsHistory(h) && i <= j <= |h.actions|
    requires Exists(h.states[i].w, doc) && Doc(h.states[i].w, doc).status != Processing
    ensures doc in h.states[j].w.ever
    ensures Exists(h.states[j].w, doc) ==> Doc(h.states[j].w, doc).status != Processing
    decreases j
  {
    if i == j {
      Reachable(h, i);
      assert DocumentInv(h.states[i].w, doc);
    } else {
      NeverProcessingAgain(h, i, j - 1, doc);
      assert StepAt(h, j - 1);
      StepRevivesNothing(h.states[j - 1], h.actions[j - 1], doc);
      if Exists(h.states[j - 1].w, doc) {
        StepRestartsNothing(h.states[j - 1], h.actions[j - 1], doc);
      }
    }
  }

  /** A deleted document never regains its row, a page or a webhook, whatever late steps are still to come. */
  lemma {:induction false} DeletedStaysDeleted(h: History, i: nat, j: nat, doc: Id)
    requires IsHistory(h) && i <= j <= |h.actions|
    requires doc in h.states[i].w.ever && !Exists(h.states[i].w, doc)
    ensures doc in h.states[j].w.ever && !Exists(h.states[j].w, doc)
    ensures forall n: nat :: PageId(doc, n) !in h.states[j].w.tables.pages
    ensures forall g | g in h.states[j].w.tables.hooks :: h.states[j].w.tables.hooks[g] != doc
    decreases j
  {
    if i < j {
      DeletedStaysDeleted(h, i, j - 1, doc);
      assert StepAt(h, j - 1);
      StepRevivesNothing(h.states[j - 1], h.actions[j - 1], doc);
    }
    StatusColumns(h, j);
  }

  // ---------------------------------------------------------------- reading a range while others work

  /** A page total, once set, is never changed. */
  lemma TotalStays(s: System, a: Action, doc: Id)
    requires Extraction.Inv(s) && Extraction.Enabled(s, a)
    requires Exists(s.w, doc) && Exists(Apply(s, a).w, doc) && Doc(s.w, doc).totalPages.Some?
    ensures Doc(Apply(s, a).w, doc).totalPages == Doc(s.w, doc).totalPages
  {
    if a.MarkRun? {
      MarkKeepsTotal(s, a, doc);
    } else {
      assert DocumentInv(s.w, doc);
    }
  }

  lemma MarkKeepsTotal(s: System, a: Action, doc: Id)
    requires Extraction.Inv(s) && Extraction.Enabled(s, a) && a.MarkRun?
    requires Exists(s.w, doc) && Doc(s.w, doc).totalPages.Some?
    ensures Exists(Apply(s, a).w, doc) && Doc(Apply(s, a).w, doc).totalPages == Doc(s.w, doc).totalPages
  {
    assert RunInv(s.w, s.runs[a.id]) && DocumentInv(s.w, doc);
  }

  lemma {:induction false} KnownStaysKnown(h: History, i: nat, j: nat, doc: Id)
    requires IsHistory(h) && i <= j <= |h.actions| && doc in h.states[i].w.ever
    ensures doc in h.states[j].w.ever
    decreases j
  {
    if i < j {
      KnownStaysKnown(h, i, j - 1, doc);
      assert StepAt(h, j - 1);
      StepRevivesNothing(h.states[j - 1], h.actions[j - 1], doc);
    }
  }

  /** A document that exists at both ends of a stretch has existed all along, with the same page total. */
  lemma {:induction false} PagesStay(h: History, i: nat, j: nat, doc: Id)
    requires IsHistory(h) && i <= j <= |h.actions| && Exists(h.states[i].w, doc) && Exists(h.states[j].w, doc)
    requires Doc(h.states[i].w, doc).totalPages.Some?
    ensures forall m | i <= m <= j :: Exists(h.states[m].w, doc)
    ensures Doc(h.states[j].w, doc).totalPages == Doc(h.states[i].w, doc).totalPages
    decreases j
  {
    if i < j {
      Reachable(h, i);
      assert DocumentInv(h.states[i].w, doc);
      KnownStaysKnown(h, i, j - 1, doc);
      assert StepAt(h, j - 1);
      StepRevivesNothing(h.states[j - 1], h.actions[j - 1], doc);
      PagesStay(h, i, j - 1, doc);
      Reachable(h, j - 1);
      TotalStays(h.states[j - 1], h.actions[j - 1], doc);
    }
  }

  /** The objects held at every moment from state j to state m. */
  ghost function HeldThroughout(h: History, j: nat, m: nat): set<ObjectKey>
    requires IsHistory(h) && j <= m <= |h.actions|
  {
    set key | key in h.states[j].w.bucket && forall x | j <= x <= m :: key in h.states[x].w.bucket
  }

  lemma PagesHeldThroughout(h: History, i: nat, j: nat, m: nat, doc: Id)
    requires IsHistory(h) && i <= j <= m <= |h.actions| && Exists(h.states[i].w, doc) && Exists(h.states[m].w, doc)
    requires Doc(h.states[i].w, doc).totalPages.Some?
    ensures forall p | p in h.states[j].w.tables.pages && p.doc == doc ::
              h.states[j].w.tables.pages[p].path == Page(doc, p.num)
              && h.states[j].w.tables.pages[p].path in HeldThroughout(h, j, m)
  {
    PagesStay(h, i, m, doc);
    PagesStay(h, i, j, doc);
    RowsPointAtObjects(h, j);
    TotalMeansPages(h, j, doc);
    forall p, x | p in h.states[j].w.tables.pages && p.doc == doc && j <= x <= m
      ensures Page(doc, p.num) in h.states[x].w.bucket
    {
      PagesStay(h, i, x, doc);
      TotalMeansPages(h, x, doc);
      assert p.num in NumsOf(h.states[j].w.tables.pages, doc);
      assert p.num in NumsOf(h.states[x].w.tables.pages, doc);
      RowsPointAtObjects(h, x);
    }
  }

  /**
   * A range request reads the row of a ready document at state i, its page rows at state j, and the objects between j
   * and m, while everybody else goes on. If the document is still there at m, it gets exactly the pages max(start, 1)
   * to min(end, N) in order; if it has gone by j, none; and the range error exactly when the interval is empty.
   */
  lemma RangeOfReadyDocument(h: History, i: nat, j: nat, m: nat, doc: Id, start: int, end: int)
    requires IsHistory(h) && i <= j <= m <= |h.actions|
    requires Exists(h.states[i].w, doc) && Doc(h.states[i].w, doc).status == Ready
    ensures Doc(h.states[i].w, doc).totalPages.Some?
    ensures var d, pages := Doc(h.states[i].w, doc), h.states[j].w.tables.pages;
            var lo, hi := Low(start), High(d.totalPages, end);
            var (archive, outcome) := RangeOf(d, pages, doc, start, end, HeldThroughout(h, j, m));
            && (outcome == BadRange <==> lo > hi)
            && (lo > hi ==> archive == [])
            && (lo <= hi && !Exists(h.states[j].w, doc) ==> outcome == NoPages && archive == [])
            && (lo <= hi && Exists(h.states[m].w, doc) ==>
                  && outcome == Done && |archive| == hi - lo + 1
                  && forall n | 0 <= n < |archive| ::
                       archive[n].num == lo + n && archive[n].row.path == Page(doc, lo + n))
  {
    ReadyIsComplete(h, i, doc);
    var d, pages := Doc(h.states[i].w, doc), h.states[j].w.tables.pages;
    if Exists(h.states[m].w, doc) {
      PagesHeldThroughout(h, i, j, m, doc);
      PagesStay(h, i, m, doc);
      PagesStay(h, i, j, doc);
      TotalMeansPages(h, j, doc);
      RangeExact(d, pages, doc, start, end, HeldThroughout(h, j, m));
    } else if !Exists(h.states[j].w, doc) {
      StatusColumns(h, j);
      assert NumsOf(pages, doc) == {};
      NoRows(pages, doc, Low(start), High(d.totalPages, end));
    }
  }

  lemma NoRows(pages: map<PageId, PageRow>, doc: Id, lo: int, hi: int)
    requires NumsOf(pages, doc) == {}
    ensures SelectRange(pages, doc, lo, hi) == []
  {
    assert (set n | n in NumsOf(pages, doc) && lo <= n <= hi) == {};
  }
}
