/**
 * The page goroutines of one extraction: a loop that adds to the wait group and spawns, a five-slot semaphore, the
 * first error kept under a mutex, and the wait. A schedule is any order in which the loop and the goroutines take
 * their next statement; `ok` is the outcome of the call that statement makes.
 */
module FanOut {
  import opened Options

  const SLOTS: nat := 5

  /** Where the goroutine of one page stands; its deferred calls release the slot first, then leave the wait group. */
  datatype Pc =
    | Unspawned
    | Waiting
    | Extracting
    | Extracted
    | Uploaded
    | Saved
    | Erred
    | Recorded
    | Released(ok: bool)
    | Finished(ok: bool)

  datatype Fan = Fan(pcs: seq<Pc>, spawned: nat, sem: nat, wg: nat, firstErr: Option<nat>)

  datatype Step = Spawn | Advance(page: nat, ok: bool)

  function Start(pages: nat): Fan {
    Fan(seq(pages, _ => Unspawned), 0, 0, 0, None)
  }

  predicate Enabled(f: Fan, s: Step) {
    match s
    case Spawn => f.spawned < |f.pcs|
    case Advance(i, _) =>
      i < |f.pcs| && !f.pcs[i].Unspawned? && !f.pcs[i].Finished? && (f.pcs[i].Waiting? ==> f.sem < SLOTS)
      && (f.pcs[i].Released? ==> f.wg > 0) && (f.pcs[i] in {Saved, Recorded} ==> f.sem > 0)
  }

  function AfterCall(ok: bool, next: Pc): Pc {
    if ok then next else Erred
  }

  function Next(f: Fan, s: Step): Fan
    requires Enabled(f, s)
  {
    match s
    case Spawn => f.(pcs := f.pcs[f.spawned := Waiting], spawned := f.spawned + 1, wg := f.wg + 1)
    case Advance(i, ok) =>
      match f.pcs[i]
      case Waiting => f.(pcs := f.pcs[i := Extracting], sem := f.sem + 1)
      case Extracting => f.(pcs := f.pcs[i := AfterCall(ok, Extracted)])
      case Extracted => f.(pcs := f.pcs[i := AfterCall(ok, Uploaded)])
      case Uploaded => f.(pcs := f.pcs[i := AfterCall(ok, Saved)])
      case Erred => f.(pcs := f.pcs[i := Recorded], firstErr := if f.firstErr.None? then Some(i) else f.firstErr)
      case Saved => f.(pcs := f.pcs[i := Released(true)], sem := f.sem - 1)
      case Recorded => f.(pcs := f.pcs[i := Released(false)], sem := f.sem - 1)
      case Released(success) => f.(pcs := f.pcs[i := Finished(success)], wg := f.wg - 1)
      case _ => f
  }

  /** The loop has ended and wg.Wait returns. */
  predicate Joined(f: Fan) {
    f.spawned == |f.pcs| && f.wg == 0
  }

  // ---------------------------------------------------------------- counting

  predicate HoldsSlot(pc: Pc) {
    pc in {Extracting, Extracted, Uploaded, Saved, Erred, Recorded}
  }

  predicate Running(pc: Pc) {
    !pc.Unspawned? && !pc.Finished?
  }

  function One(b: bool): nat {
    if b then 1 else 0
  }

  function Count(pcs: seq<Pc>, p: Pc -> bool): nat {
    if pcs == [] then 0 else One(p(pcs[0])) + Count(pcs[1..], p)
  }

  lemma {:induction false} CountUpdate(pcs: seq<Pc>, i: nat, pc: Pc, p: Pc -> bool)
    requires i < |pcs|
    ensures Count(pcs[i := pc], p) == Count(pcs, p) - One(p(pcs[i])) + One(p(pc))
  {
    if i > 0 {
      CountUpdate(pcs[1..], i - 1, pc, p);
      assert pcs[i := pc][1..] == pcs[1..][i - 1 := pc];
    } else {
      assert pcs[0 := pc][1..] == pcs[1..];
    }
  }

  lemma {:induction false} CountZero(pcs: seq<Pc>, p: Pc -> bool)
    ensures Count(pcs, p) == 0 <==> forall i | 0 <= i < |pcs| :: !p(pcs[i])
  {
    if pcs != [] {
      CountZero(pcs[1..], p);
      assert forall i | 1 <= i < |pcs| :: pcs[i] == pcs[1..][i - 1];
      assert forall i | 0 <= i < |pcs[1..]| :: pcs[1..][i] == pcs[i + 1];
    }
  }

  /** Statements a goroutine has yet to take, at most. */
  function Rank(pc: Pc): nat {
    match pc
    case Unspawned => 8
    case Waiting => 7
    case Extracting => 6
    case Extracted => 5
    case Uploaded => 4
    case Erred => 3
    case Saved => 2
    case Recorded => 2
    case Released(_) => 1
    case Finished(_) => 0
  }

  function Work(pcs: seq<Pc>): nat {
    if pcs == [] then 0 else Rank(pcs[0]) + Work(pcs[1..])
  }

  lemma {:induction false} WorkUpdate(pcs: seq<Pc>, i: nat, pc: Pc)
    requires i < |pcs|
    ensures Work(pcs[i := pc]) == Work(pcs) - Rank(pcs[i]) + Rank(pc)
  {
    if i > 0 {
      WorkUpdate(pcs[1..], i - 1, pc);
      assert pcs[i := pc][1..] == pcs[1..][i - 1 := pc];
    } else {
      assert pcs[0 := pc][1..] == pcs[1..];
    }
  }

  // ---------------------------------------------------------------- the invariant

  predicate HasFailed(pc: Pc) {
    pc == Recorded || pc == Released(false) || pc == Finished(false)
  }

  /**
   * The semaphore and the wait group count the goroutines that hold a slot and those that have not finished; the first
   * error is set exactly when some page has recorded one.
   */
  ghost predicate Inv(f: Fan) {
    Shaped(f) && Counted(f) && ErrorKept(f)
  }

  ghost predicate Shaped(f: Fan) {
    f.spawned <= |f.pcs| && forall i | 0 <= i < |f.pcs| :: f.pcs[i].Unspawned? <==> i >= f.spawned
  }

  ghost predicate Counted(f: Fan) {
    f.sem == Count(f.pcs, HoldsSlot) && f.sem <= SLOTS && f.wg == Count(f.pcs, Running)
  }

  ghost predicate ErrorKept(f: Fan) {
    && (f.firstErr.Some? ==> f.firstErr.value < |f.pcs| && HasFailed(f.pcs[f.firstErr.value]))
    && (f.firstErr.None? ==> forall i | 0 <= i < |f.pcs| :: !HasFailed(f.pcs[i]))
  }

  lemma StartInv(pages: nat)
    ensures Inv(Start(pages))
  {
    CountZero(Start(pages).pcs, HoldsSlot);
    CountZero(Start(pages).pcs, Running);
  }

  lemma StepInv(f: Fan, s: Step)
    requires Inv(f) && Enabled(f, s)
    ensures Inv(Next(f, s))
  {
    StepCounted(f, s);
    StepShaped(f, s);
  }

  lemma StepCounted(f: Fan, s: Step)
    requires Inv(f) && Enabled(f, s)
    ensures Counted(Next(f, s))
  {
    var i := if s.Spawn? then f.spawned else s.page;
    var pc := Next(f, s).pcs[i];
    CountUpdate(f.pcs, i, pc, HoldsSlot);
    CountUpdate(f.pcs, i, pc, Running);
  }

  lemma StepShaped(f: Fan, s: Step)
    requires Inv(f) && Enabled(f, s)
    ensures Shaped(Next(f, s)) && ErrorKept(Next(f, s))
  {
    var i := if s.Spawn? then f.spawned else s.page;
    var n := Next(f, s);
    assert n.pcs == f.pcs[i := n.pcs[i]];
    assert HasFailed(f.pcs[i]) ==> HasFailed(n.pcs[i]);
  }

  /** After the wait the recorded error is nil exactly when every page has been saved, and every goroutine is done. */
  lemma JoinedOutcome(f: Fan)
    requires Inv(f) && Joined(f)
    ensures forall i | 0 <= i < |f.pcs| :: f.pcs[i].Finished?
    ensures f.firstErr.None? <==> forall i | 0 <= i < |f.pcs| :: f.pcs[i] == Finished(true)
    ensures f.sem == 0
  {
    CountZero(f.pcs, Running);
    CountZero(f.pcs, HoldsSlot);
  }

  /** No deadlock: until the wait returns, the loop or some goroutine can take its next statement. */
  lemma Progress(f: Fan)
    requires Inv(f) && !Joined(f)
    ensures exists s :: Enabled(f, s)
  {
    if f.spawned < |f.pcs| {
      assert Enabled(f, Spawn);
    } else {
      CountZero(f.pcs, Running);
      var i :| 0 <= i < |f.pcs| && Running(f.pcs[i]);
      CountZero(f.pcs, HoldsSlot);
      if f.pcs[i].Waiting? && f.sem == SLOTS {
        var j :| 0 <= j < |f.pcs| && HoldsSlot(f.pcs[j]);
        assert Enabled(f, Advance(j, true));
      } else {
        assert f.sem == 0 ==> !HoldsSlot(f.pcs[i]);
        assert Enabled(f, Advance(i, true));
      }
    }
  }

  lemma StepTakesWork(f: Fan, s: Step)
    requires Inv(f) && Enabled(f, s)
    ensures Work(Next(f, s).pcs) < Work(f.pcs)
  {
    var i := if s.Spawn? then f.spawned else s.page;
    WorkUpdate(f.pcs, i, Next(f, s).pcs[i]);
  }

  // ---------------------------------------------------------------- schedules

  /** The states of a schedule: each comes from the one before by an enabled step. */
  ghost predicate IsSchedule(pages: nat, states: seq<Fan>, steps: seq<Step>) {
    && |states| == |steps| + 1
    && states[0] == Start(pages)
    && forall k | 0 <= k < |steps| :: StepAt(states, steps, k)
  }

  ghost predicate StepAt(states: seq<Fan>, steps: seq<Step>, k: nat)
    requires |states| == |steps| + 1 && k < |steps|
  {
    Enabled(states[k], steps[k]) && states[k + 1] == Next(states[k], steps[k])
  }

  lemma {:induction false} StartWork(pages: nat)
    ensures Work(Start(pages).pcs) == 8 * pages
  {
    if pages > 0 {
      StartWork(pages - 1);
      assert Start(pages).pcs[1..] == Start(pages - 1).pcs;
    }
  }

  lemma {:induction false} ScheduleInv(pages: nat, states: seq<Fan>, steps: seq<Step>, k: nat)
    requires IsSchedule(pages, states, steps) && k <= |steps|
    ensures Inv(states[k]) && |states[k].pcs| == pages
    ensures k + Work(states[k].pcs) <= 8 * pages
  {
    if k == 0 {
      StartInv(pages);
      StartWork(pages);
    } else {
      ScheduleInv(pages, states, steps, k - 1);
      assert StepAt(states, steps, k - 1);
      StepInv(states[k - 1], steps[k - 1]);
      StepTakesWork(states[k - 1], steps[k - 1]);
    }
  }

  /**
   * In every schedule of every number of pages: at most five pages are extracted at once; the schedule is no longer
   * than 8 steps a page; it can go on until the wait returns; and then no error is recorded exactly when all pages
   * have succeeded.
   */
  lemma FanOutCorrect(pages: nat, states: seq<Fan>, steps: seq<Step>, k: nat)
    requires IsSchedule(pages, states, steps) && k <= |steps|
    ensures Count(states[k].pcs, HoldsSlot) <= 5
    ensures k <= 8 * pages
    ensures !Joined(states[k]) ==> exists s :: Enabled(states[k], s)
    ensures |states[k].pcs| == pages
    ensures Joined(states[k]) ==>
            (states[k].firstErr.None? <==> forall i | 0 <= i < pages :: states[k].pcs[i] == Finished(true))
  {
    ScheduleInv(pages, states, steps, k);
    if Joined(states[k]) {
      JoinedOutcome(states[k]);
    } else {
      Progress(states[k]);
    }
  }

  // ---------------------------------------------------------------- what the calls of a schedule decide

  /** The statement at which a goroutine stands is a call: extract the page, upload it, save its row. */
  predicate IsCall(pc: Pc) {
    pc.Extracting? || pc.Extracted? || pc.Uploaded?
  }

  /** Step j of the schedule is a call for this page, made at this point and with this outcome. */
  ghost predicate CallAt(states: seq<Fan>, steps: seq<Step>, j: nat, page: nat, pc: Pc, ok: bool)
    requires |states| == |steps| + 1
  {
    j < |steps| && steps[j] == Advance(page, ok) && page < |states[j].pcs| && states[j].pcs[page] == pc && IsCall(pc)
  }

  /** Among the first k steps one of the page's calls failed. */
  ghost predicate CallFailed(states: seq<Fan>, steps: seq<Step>, k: nat, page: nat)
    requires |states| == |steps| + 1
  {
    exists j, pc | 0 <= j < k :: CallAt(states, steps, j, page, pc, false)
  }

  /** Among the first k steps the page's call at this point succeeded. */
  ghost predicate CallSucceeded(states: seq<Fan>, steps: seq<Step>, k: nat, page: nat, pc: Pc)
    requires |states| == |steps| + 1
  {
    exists j | 0 <= j < k :: CallAt(states, steps, j, page, pc, true)
  }

  predicate Broken(pc: Pc) {
    pc.Erred? || HasFailed(pc)
  }

  lemma BreaksExactly(f: Fan, s: Step, page: nat)
    requires Shaped(f) && Enabled(f, s) && page < |f.pcs|
    ensures Broken(Next(f, s).pcs[page]) <==>
            Broken(f.pcs[page]) || (s == Advance(page, false) && IsCall(f.pcs[page]))
  {
  }

  lemma {:induction false} BrokenByCalls(pages: nat, states: seq<Fan>, steps: seq<Step>, k: nat, page: nat)
    requires IsSchedule(pages, states, steps) && k <= |steps| && page < pages
    ensures |states[k].pcs| == pages
    ensures Broken(states[k].pcs[page]) <==> CallFailed(states, steps, k, page)
  {
    if k > 0 {
      ScheduleInv(pages, states, steps, k - 1);
      BrokenByCalls(pages, states, steps, k - 1, page);
      assert StepAt(states, steps, k - 1);
      var f, s := states[k - 1], steps[k - 1];
      BreaksExactly(f, s, page);
      if s == Advance(page, false) && IsCall(f.pcs[page]) {
        assert CallAt(states, steps, k - 1, page, f.pcs[page], false);
      }
    }
  }

  /** How many of the three calls lie behind a page that has not failed. */
  function Behind(pc: Pc): nat {
    match pc
    case Extracted => 1
    case Uploaded => 2
    case Saved => 3
    case Released(true) => 3
    case Finished(true) => 3
    case _ => 0
  }

  lemma {:induction false} CallsBehind(pages: nat, states: seq<Fan>, steps: seq<Step>, k: nat, page: nat)
    requires IsSchedule(pages, states, steps) && k <= |steps| && page < pages
    ensures |states[k].pcs| == pages
    ensures Behind(states[k].pcs[page]) >= 1 ==> CallSucceeded(states, steps, k, page, Extracting)
    ensures Behind(states[k].pcs[page]) >= 2 ==> CallSucceeded(states, steps, k, page, Extracted)
    ensures Behind(states[k].pcs[page]) >= 3 ==> CallSucceeded(states, steps, k, page, Uploaded)
  {
    if k > 0 {
      ScheduleInv(pages, states, steps, k - 1);
      CallsBehind(pages, states, steps, k - 1, page);
      assert StepAt(states, steps, k - 1);
      var f, s := states[k - 1], steps[k - 1];
      if s == Advance(page, true) && IsCall(f.pcs[page]) {
        assert CallAt(states, steps, k - 1, page, f.pcs[page], true);
      } else {
        NotBehindWithoutCall(f, s, page);
      }
    }
  }

  lemma NotBehindWithoutCall(f: Fan, s: Step, page: nat)
    requires Shaped(f) && Enabled(f, s) && page < |f.pcs| && !(s == Advance(page, true) && IsCall(f.pcs[page]))
    ensures Behind(Next(f, s).pcs[page]) <= Behind(f.pcs[page])
  {
  }

  /** A page ends in success exactly when none of its calls failed, and then all three have been made. */
  lemma PageByCalls(pages: nat, states: seq<Fan>, steps: seq<Step>, k: nat, page: nat)
    requires IsSchedule(pages, states, steps) && k <= |steps| && page < pages
    ensures |states[k].pcs| == pages
    ensures states[k].pcs[page].Finished? ==>
            (states[k].pcs[page] == Finished(false) <==> CallFailed(states, steps, k, page))
    ensures states[k].pcs[page] == Finished(true) ==>
            && CallSucceeded(states, steps, k, page, Extracting)
            && CallSucceeded(states, steps, k, page, Extracted)
            && CallSucceeded(states, steps, k, page, Uploaded)
  {
    BrokenByCalls(pages, states, steps, k, page);
    CallsBehind(pages, states, steps, k, page);
  }

  /** After the wait no error is recorded exactly when every call of the schedule has succeeded. */
  lemma OutcomeByCalls(pages: nat, states: seq<Fan>, steps: seq<Step>, k: nat)
    requires IsSchedule(pages, states, steps) && k <= |steps| && Joined(states[k])
    ensures states[k].firstErr.None? <==>
            forall j, page, pc | 0 <= j < k :: !CallAt(states, steps, j, page, pc, false)
  {
    FanOutCorrect(pages, states, steps, k);
    ScheduleInv(pages, states, steps, k);
    JoinedOutcome(states[k]);
    if states[k].firstErr.None? {
      forall j, page, pc | 0 <= j < k ensures !CallAt(states, steps, j, page, pc, false) {
        if CallAt(states, steps, j, page, pc, false) {
          ScheduleInv(pages, states, steps, j);
          BrokenByCalls(pages, states, steps, k, page);
        }
      }
    } else {
      var page: nat :| page < pages && states[k].pcs[page] != Finished(true);
      BrokenByCalls(pages, states, steps, k, page);
    }
  }

  /** At step j the goroutine of this page takes the mutex to record its error. */
  ghost predicate RecordsAt(states: seq<Fan>, steps: seq<Step>, j: nat, page: nat)
    requires |states| == |steps| + 1
  {
    j < |steps| && steps[j].Advance? && steps[j].page == page && page < |states[j].pcs| && states[j].pcs[page].Erred?
  }

  ghost predicate RecordsFirst(states: seq<Fan>, steps: seq<Step>, j: nat, page: nat)
    requires |states| == |steps| + 1
  {
    RecordsAt(states, steps, j, page) && forall m, other | 0 <= m < j :: !RecordsAt(states, steps, m, other)
  }

  lemma {:induction false} NoErrorWithoutRecord(states: seq<Fan>, steps: seq<Step>, pages: nat, k: nat)
    requires IsSchedule(pages, states, steps) && k <= |steps|
    ensures states[k].firstErr.None? <==> forall j, page | 0 <= j < k :: !RecordsAt(states, steps, j, page)
  {
    if k > 0 {
      NoErrorWithoutRecord(states, steps, pages, k - 1);
      assert StepAt(states, steps, k - 1);
      var s := steps[k - 1];
      if s.Advance? && states[k - 1].pcs[s.page].Erred? {
        assert RecordsAt(states, steps, k - 1, s.page);
      }
    }
  }

  /** The error kept is the first one recorded. */
  lemma {:induction false} FirstErrorKept(pages: nat, states: seq<Fan>, steps: seq<Step>, k: nat, page: nat)
    requires IsSchedule(pages, states, steps) && k <= |steps|
    ensures states[k].firstErr == Some(page) <==> exists j | 0 <= j < k :: RecordsFirst(states, steps, j, page)
  {
    if k > 0 {
      FirstErrorKept(pages, states, steps, k - 1, page);
      NoErrorWithoutRecord(states, steps, pages, k - 1);
      assert StepAt(states, steps, k - 1);
      if states[k - 1].firstErr.None? && states[k].firstErr == Some(page) {
        assert RecordsFirst(states, steps, k - 1, page);
      }
    }
  }

  /** A waiting goroutine may enter exactly while fewer than five hold a slot. */
  lemma EntersExactly(f: Fan, page: nat, ok: bool)
    requires Inv(f) && page < |f.pcs| && f.pcs[page].Waiting?
    ensures Enabled(f, Advance(page, ok)) <==> Count(f.pcs, HoldsSlot) < 5
  {
  }
}
