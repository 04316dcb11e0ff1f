/**
 * When a deletion's background cleanup is complete, exactly: a run that may still store a page when the row is deleted
 * can always go on to do so after the cleanup has ended. The continuations are built step by step.
 */
module LateUploads {
  import opened Options
  import opened Keys
  import opened Documents
  import opened Worlds
  import opened Extraction
  import opened ExtractionRuns
  import F = FanOut

  // ---------------------------------------------------------------- continuing a history

  function Last(h: History): System
    requires |h.states| > 0
  {
    h.states[|h.states| - 1]
  }

  ghost predicate Extends(h: History, g: History) {
    && IsHistory(h) && IsHistory(g)
    && |h.actions| <= |g.actions|
    && (forall m | 0 <= m < |h.actions| :: g.actions[m] == h.actions[m])
    && (forall m | 0 <= m < |h.states| :: g.states[m] == h.states[m])
  }

  /** g goes on where h ends, and no removal of deletion x fails on the way. */
  ghost predicate Continues(h: History, g: History, x: Id) {
    Extends(h, g) && forall m | |h.actions| <= m < |g.actions| :: !FailedRemoval(g.actions[m], x)
  }

  lemma Then(h: History, a: Action, x: Id) returns (g: History)
    requires IsHistory(h) && Extraction.Enabled(Last(h), a) && !FailedRemoval(a, x)
    ensures Continues(h, g, x) && Last(g) == Apply(Last(h), a)
    ensures g.actions == h.actions + [a]
  {
    g := History(h.states + [Apply(Last(h), a)], h.actions + [a]);
    forall i | 0 <= i < |g.actions| ensures StepAt(g, i) {
      assert i < |h.actions| ==> StepAt(h, i);
    }
  }

  lemma ContinuesOn(f: History, g: History, h: History, x: Id)
    requires Continues(f, g, x) && Continues(g, h, x)
    ensures Continues(f, h, x)
  {
  }

  lemma LastInv(h: History)
    requires IsHistory(h)
    ensures Extraction.Inv(Last(h))
  {
    Reachable(h, |h.actions|);
  }

  // ---------------------------------------------------------------- moving one run

  /** Only run r has moved, and what may have changed outside are page rows and objects. */
  ghost predicate OnlyRun(s: System, n: System, r: Id) {
    && n.w.tables.docs == s.w.tables.docs && n.w.ever == s.w.ever && n.w.queued == s.w.queued
    && n.uploads == s.uploads && n.deletions == s.deletions && n.runs - {r} == s.runs - {r}
    && r in n.runs
  }

  /** The run is at work on the pages of this document. */
  predicate AtPages(s: System, r: Id, doc: Id) {
    r in s.runs && s.runs[r].Extracting? && s.runs[r].doc == doc
  }

  /** The original is there to be read, and it has pages. */
  predicate Readable(w: World, doc: Id) {
    Holds(w, Original(doc)) && w.bucket[Original(doc)] >= 1
  }

  /** A run that has yet to read the original does so. */
  lemma ReadsOriginal(h: History, r: Id, x: Id) returns (g: History)
    requires IsHistory(h) && r in Last(h).runs && (Last(h).runs[r].Fetched? || Last(h).runs[r].Downloaded?)
    requires Last(h).runs[r].Fetched? ==> Readable(Last(h).w, Last(h).runs[r].doc)
    requires Last(h).runs[r].Downloaded? ==> Last(h).runs[r].pdf >= 1
    ensures Continues(h, g, x) && OnlyRun(Last(h), Last(g), r) && Last(g).w == Last(h).w
    ensures exists pages: nat :: pages >= 1 && Last(g).runs[r] == Extracting(Last(h).runs[r].doc, F.Start(pages))
  {
    var run := Last(h).runs[r];
    var f := h;
    if run.Fetched? {
      LastInv(h);
      assert RunInv(Last(h).w, run);
      f := Then(h, Download(r, true), x);
    }
    var pages := Last(f).runs[r].pdf;
    g := Then(f, CountPages(r, true), x);
    ContinuesOn(h, f, g, x);
    assert Last(g).runs[r] == Extracting(run.doc, F.Start(pages));
  }

  /** Every call of the step succeeds but the saving of a row whose document is gone. */
  predicate GoesWell(s: System, f: F.Fan, doc: Id, step: F.Step) {
    F.Enabled(f, step) && (step.Advance? ==> (step.ok <==> Exists(s.w, doc) || !f.pcs[step.page].Uploaded?))
  }

  lemma StepExists(s: System, r: Id, doc: Id) returns (step: F.Step)
    requires Extraction.Inv(s) && AtPages(s, r, doc) && !F.Joined(s.runs[r].fan)
    ensures GoesWell(s, s.runs[r].fan, doc, step) && Extraction.Enabled(s, Fan(r, step, 0))
    ensures F.Work(F.Next(s.runs[r].fan, step).pcs) < F.Work(s.runs[r].fan.pcs)
  {
    var f := s.runs[r].fan;
    assert RunInv(s.w, s.runs[r]);
    F.Progress(f);
    step :| F.Enabled(f, step);
    if step.Advance? {
      step := F.Advance(step.page, Exists(s.w, doc) || !f.pcs[step.page].Uploaded?);
    }
    F.StepTakesWork(f, step);
  }

  /** The fan-out takes such a step. */
  lemma FanStep(h: History, r: Id, doc: Id, x: Id) returns (g: History, step: F.Step)
    requires IsHistory(h) && AtPages(Last(h), r, doc) && !F.Joined(Last(h).runs[r].fan)
    ensures Continues(h, g, x) && OnlyRun(Last(h), Last(g), r) && AtPages(Last(g), r, doc)
    ensures var f := Last(h).runs[r].fan;
            && GoesWell(Last(h), f, doc, step) && Last(g).runs[r].fan == F.Next(f, step)
            && F.Work(F.Next(f, step).pcs) < F.Work(f.pcs)
  {
    LastInv(h);
    step := StepExists(Last(h), r, doc);
    g := Then(h, Fan(r, step, 0), x);
  }

  lemma BeforeUploadStays(s: System, f: F.Fan, doc: Id, step: F.Step, n: nat)
    requires GoesWell(s, f, doc, step) && n < |f.pcs| && BeforeUpload(f.pcs[n]) && !f.pcs[n].Extracted?
    ensures |F.Next(f, step).pcs| == |f.pcs| && BeforeUpload(F.Next(f, step).pcs[n])
  {
  }

  lemma NotJoined(s: System, r: Id, doc: Id, n: nat)
    requires Extraction.Inv(s) && AtPages(s, r, doc)
    requires n < |s.runs[r].fan.pcs| && BeforeUpload(s.runs[r].fan.pcs[n])
    ensures !F.Joined(s.runs[r].fan)
  {
    assert RunInv(s.w, s.runs[r]);
    if F.Joined(s.runs[r].fan) {
      F.JoinedOutcome(s.runs[r].fan);
    }
  }

  /** A page that has yet to be uploaded can get to its upload. */
  lemma {:induction false} ReachesUpload(h: History, r: Id, doc: Id, n: nat, x: Id) returns (g: History)
    requires IsHistory(h) && AtPages(Last(h), r, doc)
    requires n < |Last(h).runs[r].fan.pcs| && BeforeUpload(Last(h).runs[r].fan.pcs[n])
    ensures Continues(h, g, x) && OnlyRun(Last(h), Last(g), r) && AtPages(Last(g), r, doc)
    ensures n < |Last(g).runs[r].fan.pcs| && Last(g).runs[r].fan.pcs[n].Extracted?
    decreases F.Work(Last(h).runs[r].fan.pcs)
  {
    if Last(h).runs[r].fan.pcs[n].Extracted? {
      return h;
    }
    LastInv(h);
    NotJoined(Last(h), r, doc, n);
    var next, step := FanStep(h, r, doc, x);
    BeforeUploadStays(Last(h), Last(h).runs[r].fan, doc, step, n);
    g := ReachesUpload(next, r, doc, n, x);
    ContinuesOn(h, next, g, x);
  }

  predicate NoneFailed(f: F.Fan) {
    forall i | 0 <= i < |f.pcs| :: !f.pcs[i].Erred? && !F.HasFailed(f.pcs[i])
  }

  lemma NoneFailedStays(s: System, f: F.Fan, doc: Id, step: F.Step)
    requires GoesWell(s, f, doc, step) && Exists(s.w, doc) && NoneFailed(f)
    ensures NoneFailed(F.Next(f, step))
  {
  }

  lemma NoErrorRecorded(s: System, r: Id, doc: Id)
    requires Extraction.Inv(s) && AtPages(s, r, doc) && NoneFailed(s.runs[r].fan)
    ensures s.runs[r].fan.firstErr.None?
  {
    assert RunInv(s.w, s.runs[r]);
  }

  /** While the document is there, all pages can succeed. */
  lemma {:induction false} PagesSucceed(h: History, r: Id, doc: Id, x: Id) returns (g: History)
    requires IsHistory(h) && AtPages(Last(h), r, doc) && Exists(Last(h).w, doc) && NoneFailed(Last(h).runs[r].fan)
    ensures Continues(h, g, x) && OnlyRun(Last(h), Last(g), r) && AtPages(Last(g), r, doc)
    ensures F.Joined(Last(g).runs[r].fan) && Last(g).runs[r].fan.firstErr.None?
    decreases F.Work(Last(h).runs[r].fan.pcs)
  {
    if F.Joined(Last(h).runs[r].fan) {
      LastInv(h);
      NoErrorRecorded(Last(h), r, doc);
      return h;
    }
    var next, step := FanStep(h, r, doc, x);
    NoneFailedStays(Last(h), Last(h).runs[r].fan, doc, step);
    g := PagesSucceed(next, r, doc, x);
    ContinuesOn(h, next, g, x);
  }

  /**
   * From every reachable state a document that has been enqueued and whose original can be read can become ready,
   * whatever has failed before.
   */
  lemma CanBecomeReady(h: History, r: Id, doc: Id, x: Id) returns (g: History)
    requires IsHistory(h) && r !in Last(h).runs && doc in Last(h).w.queued
    requires Exists(Last(h).w, doc) && Readable(Last(h).w, doc)
    ensures Continues(h, g, x) && Last(g).runs == Last(h).runs && Last(g).deletions == Last(h).deletions
    ensures Exists(Last(g).w, doc) && Doc(Last(g).w, doc).status == Ready
    ensures Doc(Last(g).w, doc).owner == Doc(Last(h).w, doc).owner && Last(g).w.queued == Last(h).w.queued
  {
    var fetched := Then(h, Deliver(r, doc), x);
    var reading := ReadsOriginal(fetched, r, x);
    var joined := PagesSucceed(reading, r, doc, x);
    assert Last(fetched).runs - {r} == Last(h).runs;
    assert Last(joined).runs - {r} == Last(h).runs;
    g := JoinsReady(joined, r, doc, x);
    ContinuesOn(h, fetched, reading, x);
    ContinuesOn(h, reading, joined, x);
    ContinuesOn(h, joined, g, x);
  }

  lemma JoinsReady(h: History, r: Id, doc: Id, x: Id) returns (g: History)
    requires IsHistory(h) && AtPages(Last(h), r, doc) && Exists(Last(h).w, doc)
    requires F.Joined(Last(h).runs[r].fan) && Last(h).runs[r].fan.firstErr.None?
    ensures Continues(h, g, x) && Last(g).runs == Last(h).runs - {r} && Last(g).deletions == Last(h).deletions
    ensures Exists(Last(g).w, doc) && Doc(Last(g).w, doc).status == Ready
    ensures Doc(Last(g).w, doc).owner == Doc(Last(h).w, doc).owner && Last(g).w.queued == Last(h).w.queued
  {
    var marking := Then(h, Join(r), x);
    g := Then(marking, MarkRun(r, true, ""), x);
    ContinuesOn(h, marking, g, x);
  }

  // ---------------------------------------------------------------- a late upload

  /** The background loop can work off its list. */
  lemma {:induction false} CleansUp(h: History, x: Id) returns (g: History)
    requires IsHistory(h) && x in Last(h).deletions && Last(h).deletions[x].Cleaning?
    ensures Continues(h, g, x) && Last(g).runs == Last(h).runs && Last(g).w.tables == Last(h).w.tables
    ensures x in Last(g).deletions && Last(g).deletions[x].Cleaning? && Last(g).deletions[x].remaining == []
    decreases |Last(h).deletions[x].remaining|
  {
    if Last(h).deletions[x].remaining == [] {
      return h;
    }
    var next := Then(h, RemoveNext(x, true), x);
    g := CleansUp(next, x);
    ContinuesOn(h, next, g, x);
  }

  /** What the deletion of the row of a document that was listed when ready leaves behind. */
  lemma AfterDelete(h: History, i: nat, x: Id, doc: Id)
    requires 0 < |h.actions| && Deletes(h, i, |h.actions| - 1, x, doc)
    ensures var s, n := h.states[|h.actions| - 1], Last(h);
            && n.runs == s.runs && !Exists(n.w, doc) && Readable(n.w, doc)
            && x in n.deletions && n.deletions[x].Cleaning?
            && (forall r | r in n.runs && n.runs[r].doc == doc && n.runs[r].Downloaded? :: n.runs[r].pdf >= 1)
  {
    var j := |h.actions| - 1;
    assert StepAt(h, i);
    ListingStays(h, i + 1, j, x);
    assert StepAt(h, j);
    Reachable(h, j);
    var s := h.states[j];
    assert DeletionInv(s.w, s.deletions[x]) && DocumentInv(s.w, doc);
    forall r | r in s.runs && s.runs[r].doc == doc && s.runs[r].Downloaded? ensures s.runs[r].pdf >= 1 {
      assert RunInv(s.w, s.runs[r]);
    }
  }

  /** A run that may still store a page when the row is deleted can do so after the cleanup has ended. */
  lemma LateUpload(h: History, i: nat, x: Id, doc: Id, r: Id) returns (g: History)
    requires 0 < |h.actions| && Deletes(h, i, |h.actions| - 1, x, doc)
    requires r in Last(h).runs && Last(h).runs[r].doc == doc && MayStore(Last(h).runs[r])
    ensures Continues(h, g, x) && WorkedOff(g, |h.actions| - 1, |g.actions|, x) && !Gone(Last(g).w, doc)
  {
    AfterDelete(h, i, x, doc);
    var reading, n := h, 0;
    if Last(h).runs[r].Extracting? {
      n :| 0 <= n < |Last(h).runs[r].fan.pcs| && BeforeUpload(Last(h).runs[r].fan.pcs[n]);
    } else {
      reading := ReadsOriginal(h, r, x);
    }
    g := StoresAfterCleanup(reading, x, doc, r, n);
    ContinuesOn(h, reading, g, x);
  }

  lemma StoresAfterCleanup(h: History, x: Id, doc: Id, r: Id, n: nat) returns (g: History)
    requires IsHistory(h) && AtPages(Last(h), r, doc)
    requires n < |Last(h).runs[r].fan.pcs| && BeforeUpload(Last(h).runs[r].fan.pcs[n])
    requires x in Last(h).deletions && Last(h).deletions[x].Cleaning?
    ensures Continues(h, g, x) && !Gone(Last(g).w, doc)
    ensures x in Last(g).deletions && Last(g).deletions[x].Cleaning? && Last(g).deletions[x].remaining == []
    ensures |g.actions| > |h.actions|
  {
    var cleaned := CleansUp(h, x);
    var ready := ReachesUpload(cleaned, r, doc, n, x);
    g := Then(ready, Fan(r, F.Advance(n, true), 0), x);
    ContinuesOn(h, cleaned, ready, x);
    ContinuesOn(h, ready, g, x);
    assert Page(doc, PageNum(n)) in Last(g).w.bucket;
  }

  /**
   * The cleanup of a ready document is complete in every continuation exactly when no run may still store a page of it
   * at the moment its row is deleted.
   */
  lemma CleanupExactly(h: History, i: nat, x: Id, doc: Id)
    requires 0 < |h.actions| && Deletes(h, i, |h.actions| - 1, x, doc)
    ensures NoStoreOn(h.states[|h.actions| - 1], doc) <==>
            forall g, k: nat | Extends(h, g) && WorkedOff(g, |h.actions| - 1, k, x) :: Gone(g.states[k].w, doc)
  {
    var j := |h.actions| - 1;
    AfterDelete(h, i, x, doc);
    if NoStoreOn(h.states[j], doc) {
      forall g, k: nat | Extends(h, g) && WorkedOff(g, j, k, x) ensures Gone(g.states[k].w, doc) {
        CleanupIsComplete(g, i, j, k, x, doc);
      }
    } else {
      var r :| r in Last(h).runs && Last(h).runs[r].doc == doc && MayStore(Last(h).runs[r]);
      var g := LateUpload(h, i, x, doc, r);
    }
  }

  // ---------------------------------------------------------------- it happens

  /** An upload in which every call succeeds. */
  lemma UploadSucceeds(h: History, id: Id, doc: Id, owner: Id, pdf: nat, x: Id) returns (g: History)
    requires IsHistory(h) && id !in Last(h).uploads && doc !in Last(h).w.ever
    ensures Continues(h, g, x) && Last(g).runs == Last(h).runs && Last(g).deletions == Last(h).deletions
    ensures Exists(Last(g).w, doc) && Doc(Last(g).w, doc).owner == owner && doc in Last(g).w.queued
    ensures Holds(Last(g).w, Original(doc)) && Last(g).w.bucket[Original(doc)] == pdf
  {
    var begun := Then(h, BeginUpload(id, doc, owner, pdf), x);
    var stored := Then(begun, StoreOriginal(id, true), x);
    var linked := Then(stored, LinkOriginal(id, true), x);
    g := Then(linked, Enqueue(id, true), x);
    ContinuesOn(h, begun, stored, x);
    ContinuesOn(h, stored, linked, x);
    ContinuesOn(h, linked, g, x);
  }

  lemma NothingYet() returns (h: History)
    ensures IsHistory(h) && Last(h).w.ever == {}
    ensures Last(h).uploads == map[] && Last(h).runs == map[] && Last(h).deletions == map[]
  {
    var empty := World(Tables(map[], map[], map[]), map[], {}, {}, 0, 0, 0);
    h := History([System(empty, map[], map[], map[])], []);
  }

  /** A document becomes ready, its task is delivered again, and its owner deletes it. */
  lemma DeletedWhileRunning(h: History, doc: Id, first: Id, second: Id, x: Id) returns (g: History)
    requires IsHistory(h) && doc in Last(h).w.queued && Exists(Last(h).w, doc) && Readable(Last(h).w, doc)
    requires first !in Last(h).runs && second !in Last(h).runs && x !in Last(h).deletions
    ensures |g.actions| > 1 && Deletes(g, |g.actions| - 2, |g.actions| - 1, x, doc)
    ensures second in Last(g).runs && Last(g).runs[second].doc == doc && MayStore(Last(g).runs[second])
  {
    var ready := CanBecomeReady(h, first, doc, x);
    var again := Then(ready, Deliver(second, doc), x);
    var listed := Then(again, ListForDelete(x, doc, Doc(Last(h).w, doc).owner), x);
    g := Then(listed, DeleteRow(x, true), x);
  }

  /** From every reachable state a document that can be extracted can leak a page. */
  lemma CanLeak(h: History, doc: Id, first: Id, second: Id, x: Id) returns (g: History, i: nat, j: nat)
    requires IsHistory(h) && doc in Last(h).w.queued && Exists(Last(h).w, doc) && Readable(Last(h).w, doc)
    requires first !in Last(h).runs && second !in Last(h).runs && x !in Last(h).deletions
    ensures Deletes(g, i, j, x, doc) && WorkedOff(g, j, |g.actions|, x) && !Gone(Last(g).w, doc)
  {
    var deleted := DeletedWhileRunning(h, doc, first, second, x);
    j := |deleted.actions| - 1;
    i := j - 1;
    g := LateUpload(deleted, i, x, doc, second);
    DeletesStill(deleted, g, i, j, x, doc);
  }

  lemma DeletesStill(h: History, g: History, i: nat, j: nat, x: Id, doc: Id)
    requires Extends(h, g) && Deletes(h, i, j, x, doc)
    ensures Deletes(g, i, j, x, doc)
  {
  }

  /**
   * For one, from the start: a one-page document is uploaded and extracted, its task is delivered again, and its owner
   * deletes it; the second run stores the page after the cleanup has ended, and nobody is left to remove it.
   */
  lemma LeakHappens() returns (g: History, i: nat, j: nat)
    ensures Deletes(g, i, j, "x", "d") && WorkedOff(g, j, |g.actions|, "x") && !Gone(Last(g).w, "d")
  {
    var start := NothingYet();
    var uploaded := UploadSucceeds(start, "u", "d", "o", 1, "x");
    g, i, j := CanLeak(uploaded, "d", "first", "second", "x");
  }
}
