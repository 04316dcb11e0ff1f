/**
 * By which steps, over any run, the rows and objects of the protocol come, change and go; and that a failed call leads
 * to a failed document.
 */
module Outcomes {
  import opened Options
  import opened Keys
  import opened Documents
  import opened Worlds
  import opened Extraction
  import opened ExtractionRuns
  import F = FanOut

  /** The step from state k to state k + 1. */
  ghost predicate Steps(h: History, k: nat) {
    IsHistory(h) && k < |h.actions| && StepAt(h, k)
  }

  lemma StepOf(h: History, k: nat)
    requires Steps(h, k)
    ensures Extraction.Enabled(h.states[k], h.actions[k])
    ensures h.states[k + 1] == Apply(h.states[k], h.actions[k])
  {
  }

  // ---------------------------------------------------------------- documents

  /** A step that marks the document failed, for an upload or for an extraction run. */
  predicate Fails(s: System, a: Action, doc: Id) {
    || (a.MarkUploadFailed? && a.ok && a.id in s.uploads && s.uploads[a.id].doc == doc)
    || (a.MarkRun? && a.ok && a.id in s.runs && s.runs[a.id].Failing? && s.runs[a.id].doc == doc)
  }

  predicate Succeeds(s: System, a: Action, doc: Id) {
    a.MarkRun? && a.ok && a.id in s.runs && s.runs[a.id].Marking? && s.runs[a.id].doc == doc
  }

  /** A sweep that finds the document processing for longer than the timeout. */
  predicate Expires(s: System, a: Action, doc: Id) {
    && a.Sweep? && Exists(s.w, doc) && Doc(s.w, doc).status == Processing
    && a.readAt - Doc(s.w, doc).createdAt > s.w.timeout
  }

  predicate Links(s: System, a: Action, doc: Id) {
    a.LinkOriginal? && a.ok && a.id in s.uploads && s.uploads[a.id].doc == doc
  }

  predicate Begins(a: Action, doc: Id) {
    a.BeginUpload? && a.doc == doc
  }

  /** The owner's deletion of the row. */
  predicate DeletesRow(s: System, a: Action, doc: Id) {
    && a.DeleteRow? && a.ok && a.id in s.deletions && s.deletions[a.id].Listed? && s.deletions[a.id].doc == doc
    && Exists(s.w, doc) && Doc(s.w, doc).owner == s.deletions[a.id].user
  }

  /** What a step does to the columns of a row that is there before and after. */
  ghost predicate RowChanges(s: System, a: Action, doc: Id, d: Document, e: Document) {
    && e.owner == d.owner && e.createdAt == d.createdAt
    && e.path == (if Links(s, a, doc) then Some(Original(doc)) else d.path)
    && if Fails(s, a, doc) then
         e.status == Failed && e.errorMessage == Some(a.message) && e.totalPages == d.totalPages
       else if Succeeds(s, a, doc) then
         e.status == Ready && e.totalPages == Some(s.runs[a.id].total) && e.errorMessage == d.errorMessage
       else if Expires(s, a, doc) then
         && e.status == Failed && e.totalPages == d.totalPages
         && e.errorMessage == Some("processing timeout: worker did not complete in time")
       else
         e.status == d.status && e.totalPages == d.totalPages && e.errorMessage == d.errorMessage
  }

  /** Steps that may write to the tables. */
  predicate Writes(a: Action) {
    a.BeginUpload? || a.MarkUploadFailed? || a.LinkOriginal? || a.Fan? || a.MarkRun? || a.DeleteRow?
    || a.RegisterWebhook? || a.Sweep?
  }

  lemma OthersKeepTables(s: System, a: Action)
    requires Extraction.Enabled(s, a) && !Writes(a)
    ensures Apply(s, a).w.tables == s.w.tables
  {
  }

  lemma RunMarkChangesRow(s: System, a: Action, doc: Id)
    requires Extraction.Enabled(s, a) && Exists(s.w, doc) && a.MarkRun?
    ensures Exists(Apply(s, a).w, doc)
    ensures RowChanges(s, a, doc, Doc(s.w, doc), Doc(Apply(s, a).w, doc))
  {
    var t, r := s.w.tables, s.runs[a.id];
    assert Apply(s, a).w.tables == if a.ok then MarkTables(t, r, a.message) else t;
  }

  lemma UploadMarkChangesRow(s: System, a: Action, doc: Id)
    requires Extraction.Enabled(s, a) && Exists(s.w, doc) && a.MarkUploadFailed?
    ensures Exists(Apply(s, a).w, doc)
    ensures RowChanges(s, a, doc, Doc(s.w, doc), Doc(Apply(s, a).w, doc))
  {
  }

  lemma LinkChangesRow(s: System, a: Action, doc: Id)
    requires Extraction.Enabled(s, a) && Exists(s.w, doc) && a.LinkOriginal?
    ensures Exists(Apply(s, a).w, doc)
    ensures RowChanges(s, a, doc, Doc(s.w, doc), Doc(Apply(s, a).w, doc))
  {
  }

  lemma SweepChangesRow(s: System, a: Action, doc: Id)
    requires Extraction.Enabled(s, a) && Exists(s.w, doc) && a.Sweep?
    ensures Exists(Apply(s, a).w, doc)
    ensures RowChanges(s, a, doc, Doc(s.w, doc), Doc(Apply(s, a).w, doc))
  {
  }

  lemma OthersKeepRow(s: System, a: Action, doc: Id)
    requires Extraction.Enabled(s, a) && Exists(s.w, doc) && Exists(Apply(s, a).w, doc) && doc in s.w.ever
    requires a.BeginUpload? || a.Fan? || a.DeleteRow? || a.RegisterWebhook?
    ensures Doc(Apply(s, a).w, doc) == Doc(s.w, doc)
  {
  }

  /**
   * The status columns change at failure marks, ready marks and timeouts, and at nothing else: each sets its own
   * columns, whatever the status was, and keeps the other. Of the other columns only the path ever changes, when the
   * upload links the original.
   */
  lemma RowChangesExactly(h: History, k: nat, doc: Id)
    requires Steps(h, k) && Exists(h.states[k].w, doc) && Exists(h.states[k + 1].w, doc)
    ensures RowChanges(h.states[k], h.actions[k], doc, Doc(h.states[k].w, doc), Doc(h.states[k + 1].w, doc))
  {
    Reachable(h, k);
    assert DocumentInv(h.states[k].w, doc);
    StepOf(h, k);
    StepChangesRow(h.states[k], h.actions[k], doc);
  }

  lemma StepChangesRow(s: System, a: Action, doc: Id)
    requires Extraction.Enabled(s, a) && Exists(s.w, doc) && Exists(Apply(s, a).w, doc) && doc in s.w.ever
    ensures RowChanges(s, a, doc, Doc(s.w, doc), Doc(Apply(s, a).w, doc))
  {
    if !Writes(a) {
      OthersKeepTables(s, a);
    } else if a.MarkRun? {
      RunMarkChangesRow(s, a, doc);
    } else if a.MarkUploadFailed? {
      UploadMarkChangesRow(s, a, doc);
    } else if a.LinkOriginal? {
      LinkChangesRow(s, a, doc);
    } else if a.Sweep? {
      SweepChangesRow(s, a, doc);
    } else {
      OthersKeepRow(s, a, doc);
    }
  }

  /** A row comes with the upload that creates it and goes with its owner's deletion. */
  lemma RowsComeAndGo(h: History, k: nat, doc: Id)
    requires Steps(h, k)
    ensures var s, a, n := h.states[k], h.actions[k], h.states[k + 1];
            && (Exists(n.w, doc) <==> Begins(a, doc) || (Exists(s.w, doc) && !DeletesRow(s, a, doc)))
            && (Begins(a, doc) ==> Doc(n.w, doc) == Document(a.owner, None, Processing, None, None, s.w.now))
  {
    StepOf(h, k);
    StepMovesRows(h.states[k], h.actions[k], doc);
  }

  lemma StepMovesRows(s: System, a: Action, doc: Id)
    requires Extraction.Enabled(s, a)
    ensures Exists(Apply(s, a).w, doc) <==> Begins(a, doc) || (Exists(s.w, doc) && !DeletesRow(s, a, doc))
    ensures Begins(a, doc) ==>
            Doc(Apply(s, a).w, doc) == Document(a.owner, None, Processing, None, None, s.w.now)
  {
    if !Writes(a) {
      OthersKeepTables(s, a);
    }
  }

  // ---------------------------------------------------------------- pages, webhooks, queue and objects

  /** A page goroutine's successful statement at this point. */
  predicate PageStep(s: System, a: Action, p: PageId, pc: F.Pc) {
    && a.Fan? && a.step.Advance? && a.step.ok && a.id in s.runs && s.runs[a.id].Extracting?
    && s.runs[a.id].doc == p.doc && PageNum(a.step.page) == p.num
    && a.step.page < |s.runs[a.id].fan.pcs| && s.runs[a.id].fan.pcs[a.step.page] == pc
  }

  ghost predicate PageChanges(s: System, a: Action, p: PageId, n: System) {
    var before, after := s.w.tables.pages, n.w.tables.pages;
    && (p in after <==> PageStep(s, a, p, F.Uploaded) || (p in before && !DeletesRow(s, a, p.doc)))
    && (p in after ==>
          after[p] == if PageStep(s, a, p, F.Uploaded) then PageRow(Page(p.doc, p.num), a.size) else before[p])
  }

  /** A page row comes with the last statement of its goroutine and goes with its document. */
  lemma PagesComeAndGo(h: History, k: nat, p: PageId)
    requires Steps(h, k)
    ensures PageChanges(h.states[k], h.actions[k], p, h.states[k + 1])
  {
    StepOf(h, k);
    StepMovesPages(h.states[k], h.actions[k], p);
  }

  lemma StepMovesPages(s: System, a: Action, p: PageId)
    requires Extraction.Enabled(s, a)
    ensures PageChanges(s, a, p, Apply(s, a))
  {
    if !Writes(a) {
      OthersKeepTables(s, a);
    } else if a.Fan? {
      FanMovesPages(s, a, p);
    }
  }

  lemma FanMovesPages(s: System, a: Action, p: PageId)
    requires Extraction.Enabled(s, a) && a.Fan?
    ensures PageChanges(s, a, p, Apply(s, a))
  {
  }

  ghost predicate WebhookChanges(s: System, a: Action, hook: Id, n: System) {
    var before, after := s.w.tables.hooks, n.w.tables.hooks;
    var registers := a.RegisterWebhook? && a.hook == hook && Exists(s.w, a.doc);
    && (hook in after <==> registers || (hook in before && !DeletesRow(s, a, before[hook])))
    && (hook in after ==> after[hook] == if registers then a.doc else before[hook])
  }

  /** A subscription comes with its registration for an existing document and goes with its document. */
  lemma WebhooksComeAndGo(h: History, k: nat, hook: Id)
    requires Steps(h, k)
    ensures WebhookChanges(h.states[k], h.actions[k], hook, h.states[k + 1])
  {
    StepOf(h, k);
    StepMovesWebhooks(h.states[k], h.actions[k], hook);
  }

  lemma StepMovesWebhooks(s: System, a: Action, hook: Id)
    requires Extraction.Enabled(s, a)
    ensures WebhookChanges(s, a, hook, Apply(s, a))
  {
    if !Writes(a) {
      OthersKeepTables(s, a);
    }
  }

  /** A task stays in the queue's care for good, and is there once the queue has accepted it. */
  lemma QueueGrows(h: History, k: nat, doc: Id)
    requires Steps(h, k)
    ensures var s, a := h.states[k], h.actions[k];
            doc in h.states[k + 1].w.queued <==>
            doc in s.w.queued || (a.Enqueue? && a.accepted && s.uploads[a.id].doc == doc)
  {
    StepOf(h, k);
  }

  predicate StoresObject(s: System, a: Action, key: ObjectKey) {
    || (a.StoreOriginal? && a.ok && a.id in s.uploads && key == Original(s.uploads[a.id].doc))
    || (key.Page? && PageStep(s, a, PageId(key.doc, key.num), F.Extracted))
    || (a.FileTraffic? && a.stored && key == a.key)
  }

  predicate RemovesObject(s: System, a: Action, key: ObjectKey) {
    || (a.RemoveNext? && a.ok && a.id in s.deletions && s.deletions[a.id].Cleaning?
        && s.deletions[a.id].remaining != [] && key == s.deletions[a.id].remaining[0])
    || (a.FileTraffic? && !a.stored && key == a.key)
  }

  ghost predicate ObjectChanges(s: System, a: Action, key: ObjectKey, n: System) {
    && (Holds(n.w, key) <==> StoresObject(s, a, key) || (Holds(s.w, key) && !RemovesObject(s, a, key)))
    && (a.StoreOriginal? && StoresObject(s, a, key) && s.uploads[a.id].RowCreated? ==>
          Holds(n.w, key) && n.w.bucket[key] == s.uploads[a.id].pdf)
  }

  /** Objects come with uploads of originals and pages and go with the background removals; files have their own. */
  lemma ObjectsComeAndGo(h: History, k: nat, key: ObjectKey)
    requires Steps(h, k)
    ensures ObjectChanges(h.states[k], h.actions[k], key, h.states[k + 1])
  {
    StepOf(h, k);
    StepMovesObjects(h.states[k], h.actions[k], key);
  }

  lemma StepMovesObjects(s: System, a: Action, key: ObjectKey)
    requires Extraction.Enabled(s, a)
    ensures ObjectChanges(s, a, key, Apply(s, a))
  {
  }

  // ---------------------------------------------------------------- the actors

  /** A run comes with a delivery that finds the document's row, and goes with its mark or a crash. */
  lemma RunsComeAndGo(h: History, k: nat, r: Id)
    requires Steps(h, k)
    ensures var s, a := h.states[k], h.actions[k];
            r in h.states[k + 1].runs <==>
            (a.Deliver? && a.id == r && Exists(s.w, a.doc)) || (r in s.runs && !Ends(a, r))
  {
    StepOf(h, k);
  }

  /** An upload comes with its row, and goes with its failure mark, a failed link or the offer to the queue. */
  lemma UploadsComeAndGo(h: History, k: nat, u: Id)
    requires Steps(h, k)
    ensures var s, a := h.states[k], h.actions[k];
            u in h.states[k + 1].uploads <==>
            || (a.BeginUpload? && a.id == u)
            || (u in s.uploads
                && !((a.MarkUploadFailed? || a.Enqueue? || (a.LinkOriginal? && !a.ok)) && a.id == u))
  {
    StepOf(h, k);
  }

  /**
   * A deletion ends at once if it does not delete a row; otherwise its loop takes the original first and then the
   * listed pages, one at a time, whether or not their removal succeeds.
   */
  lemma DeletionsMoveOn(h: History, k: nat, x: Id)
    requires Steps(h, k) && x in h.states[k].deletions
    ensures var s, a, d, n := h.states[k], h.actions[k], h.states[k].deletions[x], h.states[k + 1].deletions;
            if a.DeleteRow? && a.id == x then
              && (x in n <==> DeletesRow(s, a, d.doc))
              && (x in n ==> n[x].Cleaning? && n[x].doc == d.doc
                             && n[x].remaining == PathOf(Doc(s.w, d.doc)) + d.pages)
            else if a.RemoveNext? && a.id == x then
              x in n && n[x].Cleaning? && n[x].doc == d.doc && [d.remaining[0]] + n[x].remaining == d.remaining
            else x in n && n[x] == d
  {
    StepOf(h, k);
    var a := h.actions[k];
    if !((a.DeleteRow? || a.RemoveNext?) && a.id == x) {
      DeletionMoves(h.states[k], a, x);
    }
  }

  // ---------------------------------------------------------------- failed calls

  /** A call of the run fails: the download, the page count, or a page's extraction, upload or row. */
  predicate CallFails(s: System, a: Action, r: Id) {
    r in s.runs && match a
      case Download(id, ok) => id == r && !ok
      case CountPages(id, ok) => id == r && s.runs[r].Downloaded? && (!ok || s.runs[r].pdf == 0)
      case Fan(id, step, _) =>
        && id == r && s.runs[r].Extracting? && step.Advance? && !step.ok
        && step.page < |s.runs[r].fan.pcs| && F.IsCall(s.runs[r].fan.pcs[step.page])
      case _ => false
  }

  predicate AnyBroken(f: F.Fan) {
    exists i | 0 <= i < |f.pcs| :: F.Broken(f.pcs[i])
  }

  /** The run's error is on its way to the document. */
  predicate Doomed(s: System, r: Id) {
    r in s.runs && (s.runs[r].Failing? || (s.runs[r].Extracting? && AnyBroken(s.runs[r].fan)))
  }

  lemma StaysBroken(f: F.Fan, step: F.Step)
    requires F.Shaped(f) && F.Enabled(f, step) && AnyBroken(f)
    ensures AnyBroken(F.Next(f, step))
  {
    var i :| 0 <= i < |f.pcs| && F.Broken(f.pcs[i]);
    F.BreaksExactly(f, step, i);
  }

  lemma BrokenIsRecorded(f: F.Fan)
    requires F.Inv(f) && F.Joined(f) && AnyBroken(f)
    ensures f.firstErr.Some?
  {
    F.JoinedOutcome(f);
  }

  predicate Ends(a: Action, r: Id) {
    (a.MarkRun? || a.Crash?) && a.id == r
  }

  lemma CallFailsDooms(s: System, a: Action, r: Id)
    requires Extraction.Inv(s) && Extraction.Enabled(s, a) && CallFails(s, a, r)
    ensures Doomed(Apply(s, a), r) && Apply(s, a).runs[r].doc == s.runs[r].doc
  {
    assert RunInv(s.w, s.runs[r]);
    if a.Fan? {
      F.BreaksExactly(s.runs[r].fan, a.step, a.step.page);
      assert F.Broken(Apply(s, a).runs[r].fan.pcs[a.step.page]);
    }
  }

  /** The action is a statement of this run. */
  predicate Moves(a: Action, r: Id) {
    (a.Download? || a.CountPages? || a.Fan? || a.Join? || a.MarkRun? || a.Crash?) && a.id == r
  }

  lemma OthersKeepRun(s: System, a: Action, r: Id)
    requires Extraction.Enabled(s, a) && r in s.runs && !Moves(a, r)
    ensures r in Apply(s, a).runs && Apply(s, a).runs[r] == s.runs[r]
  {
  }

  lemma DoomStays(s: System, a: Action, r: Id)
    requires Extraction.Inv(s) && Extraction.Enabled(s, a) && Doomed(s, r) && !Ends(a, r)
    ensures Doomed(Apply(s, a), r) && Apply(s, a).runs[r].doc == s.runs[r].doc
  {
    if !Moves(a, r) {
      OthersKeepRun(s, a, r);
    } else {
      assert RunInv(s.w, s.runs[r]);
      if a.Fan? {
        StaysBroken(s.runs[r].fan, a.step);
      } else {
        BrokenIsRecorded(s.runs[r].fan);
      }
    }
  }

  /** After a failed call the run stays doomed until it marks its document or crashes. */
  lemma {:induction false} FailedCallDoomsRun(h: History, i: nat, k: nat, r: Id)
    requires IsHistory(h) && i < k <= |h.actions| && CallFails(h.states[i], h.actions[i], r)
    requires forall m | i < m < k :: !Ends(h.actions[m], r)
    ensures Doomed(h.states[k], r) && h.states[k].runs[r].doc == h.states[i].runs[r].doc
    decreases k
  {
    Reachable(h, k - 1);
    assert StepAt(h, k - 1);
    if k == i + 1 {
      CallFailsDooms(h.states[i], h.actions[i], r);
    } else {
      FailedCallDoomsRun(h, i, k - 1, r);
      DoomStays(h.states[k - 1], h.actions[k - 1], r);
    }
  }

  lemma DoomsOnlyByCall(s: System, a: Action, r: Id)
    requires Extraction.Inv(s) && Extraction.Enabled(s, a) && !Doomed(s, r) && Doomed(Apply(s, a), r)
    ensures CallFails(s, a, r)
  {
    if r !in s.runs || !Moves(a, r) {
      NewRunIsNotDoomed(s, a, r);
    } else {
      assert RunInv(s.w, s.runs[r]);
      if a.Fan? {
        BreaksOnlyByCall(s.runs[r].fan, a.step);
      } else if a.Join? {
        NoneBroken(s.runs[r].fan);
      }
    }
  }

  lemma NewRunIsNotDoomed(s: System, a: Action, r: Id)
    requires Extraction.Enabled(s, a) && !Doomed(s, r) && (r !in s.runs || !Moves(a, r))
    ensures !Doomed(Apply(s, a), r)
  {
    if r in s.runs {
      OthersKeepRun(s, a, r);
    }
  }

  lemma BreaksOnlyByCall(f: F.Fan, step: F.Step)
    requires F.Shaped(f) && F.Enabled(f, step) && !AnyBroken(f) && AnyBroken(F.Next(f, step))
    ensures step.Advance? && !step.ok && F.IsCall(f.pcs[step.page])
  {
    var i :| 0 <= i < |f.pcs| && F.Broken(F.Next(f, step).pcs[i]);
    F.BreaksExactly(f, step, i);
  }

  lemma NoneBroken(f: F.Fan)
    requires F.Inv(f) && F.Joined(f) && !AnyBroken(f)
    ensures f.firstErr.None?
  {
    F.JoinedOutcome(f);
  }

  /** And only by a failed call does a run come to that. */
  lemma {:induction false} DoomedByFailedCall(h: History, k: nat, r: Id)
    requires IsHistory(h) && k <= |h.actions| && Doomed(h.states[k], r)
    ensures exists i | 0 <= i < k :: CallFails(h.states[i], h.actions[i], r)
    decreases k
  {
    if k > 0 {
      Reachable(h, k - 1);
      assert StepAt(h, k - 1);
      if Doomed(h.states[k - 1], r) {
        DoomedByFailedCall(h, k - 1, r);
      } else {
        DoomsOnlyByCall(h.states[k - 1], h.actions[k - 1], r);
      }
    }
  }

  /** After the wait the run goes on to fail exactly if a page's call has failed, otherwise to mark all its pages. */
  lemma JoinDecides(h: History, k: nat, r: Id)
    requires Steps(h, k) && h.actions[k] == Join(r)
    ensures r in h.states[k].runs && h.states[k].runs[r].Extracting?
    ensures var run := h.states[k].runs[r];
            h.states[k + 1].runs[r] == if AnyBroken(run.fan) then Failing(run.doc) else Marking(run.doc, |run.fan.pcs|)
  {
    StepOf(h, k);
    Reachable(h, k);
    var run := h.states[k].runs[r];
    assert RunInv(h.states[k].w, run);
    if AnyBroken(run.fan) {
      BrokenIsRecorded(run.fan);
    } else {
      NoneBroken(run.fan);
    }
  }

  /** The clock moves to the reading that the environment gives it, and a sweep is dated by the reading it took. */
  lemma ClockMoves(h: History, k: nat)
    requires Steps(h, k)
    ensures var a, w, v := h.actions[k], h.states[k].w, h.states[k + 1].w;
            && v.now == (if a.Tick? then a.to else w.now) && w.now <= v.now
            && v.lastSweep == if a.Sweep? then a.readAt else w.lastSweep
  {
    StepOf(h, k);
  }

  /**
   * So a run one of whose calls has failed never marks its document ready; when it makes its mark and the document
   * still exists, the document fails with the run's message.
   */
  lemma FailedCallFailsDocument(h: History, i: nat, k: nat, r: Id)
    requires IsHistory(h) && i < k < |h.actions| && CallFails(h.states[i], h.actions[i], r)
    requires forall m | i < m < k :: !Ends(h.actions[m], r)
    requires h.actions[k].MarkRun? && h.actions[k].id == r
    ensures r in h.states[k].runs && h.states[k].runs[r].Failing?
    ensures var doc, s, n := h.states[i].runs[r].doc, h.states[k], h.states[k + 1];
            h.actions[k].ok && Exists(s.w, doc) ==>
              && Exists(n.w, doc) && Doc(n.w, doc).status == Failed
              && Doc(n.w, doc).errorMessage == Some(h.actions[k].message)
              && Doc(n.w, doc).totalPages == Doc(s.w, doc).totalPages && Doc(n.w, doc).path == Doc(s.w, doc).path
  {
    FailedCallDoomsRun(h, i, k, r);
    assert StepAt(h, k);
    var doc := h.states[i].runs[r].doc;
    if h.actions[k].ok && Exists(h.states[k].w, doc) {
      RowsComeAndGo(h, k, doc);
      RowChangesExactly(h, k, doc);
    }
  }

  /** A run that marks its document ready sets the number of its pages, all of which it has saved. */
  lemma ReadyMark(h: History, k: nat, r: Id)
    requires Steps(h, k) && h.actions[k].MarkRun? && h.actions[k].id == r && h.actions[k].ok
    requires h.states[k].runs[r].Marking? && Exists(h.states[k].w, h.states[k].runs[r].doc)
    ensures var doc, s, n := h.states[k].runs[r].doc, h.states[k], h.states[k + 1];
            && Exists(n.w, doc) && Doc(n.w, doc).status == Ready
            && Holds(s.w, Original(doc)) && Doc(n.w, doc).totalPages == Some(s.w.bucket[Original(doc)])
            && Doc(n.w, doc).errorMessage == Doc(s.w, doc).errorMessage && Doc(n.w, doc).path == Doc(s.w, doc).path
  {
    var doc := h.states[k].runs[r].doc;
    MarkReadyAfterAllRows(h, k, r);
    RowsComeAndGo(h, k, doc);
    RowChangesExactly(h, k, doc);
  }

  /**
   * An upload whose object could not be stored is never enqueued: it goes no further than to mark its document failed
   * with its message.
   */
  lemma {:induction false} FailedStoreFailsUpload(h: History, i: nat, k: nat, u: Id)
    requires IsHistory(h) && i < k <= |h.actions| && StepAt(h, i) && h.actions[i] == StoreOriginal(u, false)
    requires forall m | i < m < k :: !(h.actions[m].MarkUploadFailed? && h.actions[m].id == u)
    ensures u in h.states[k].uploads && h.states[k].uploads[u] == PutFailed(h.states[i].uploads[u].doc)
    decreases k
  {
    assert StepAt(h, k - 1);
    if k > i + 1 {
      FailedStoreFailsUpload(h, i, k - 1, u);
    }
  }

  // ---------------------------------------------------------------- the age of a document

  lemma {:induction false} CreatedWhenBegun(h: History, i: nat, k: nat, doc: Id)
    requires IsHistory(h) && i < k <= |h.actions| && h.actions[i].BeginUpload? && h.actions[i].doc == doc
    requires Exists(h.states[k].w, doc)
    ensures Doc(h.states[k].w, doc).createdAt == h.states[i].w.now
    decreases k
  {
    assert StepAt(h, i) && StepAt(h, k - 1);
    if k == i + 1 {
      RowsComeAndGo(h, i, doc);
    } else {
      KnownStaysKnown(h, i + 1, k - 1, doc);
      RowsComeAndGo(h, k - 1, doc);
      CreatedWhenBegun(h, i, k - 1, doc);
      RowChangesExactly(h, k - 1, doc);
    }
  }

  /** Counted from the upload that created it, no document is processing for longer than timeout + interval. */
  lemma WatchdogBoundFromUpload(h: History, i: nat, k: nat, doc: Id, interval: nat)
    requires IsHistory(h) && i < k <= |h.actions| && h.actions[i].BeginUpload? && h.actions[i].doc == doc
    requires h.states[k].w.now - h.states[k].w.lastSweep <= interval
    requires Exists(h.states[k].w, doc) && Doc(h.states[k].w, doc).status == Processing
    ensures h.states[k].w.now - h.states[i].w.now <= h.states[0].w.timeout + interval
  {
    CreatedWhenBegun(h, i, k, doc);
    WatchdogBound(h, k, doc, interval);
  }
}
