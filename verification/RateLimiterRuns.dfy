/** What the limiter guarantees over whole runs of requests, by any users, and background cleanups. */
module RateLimiterRuns {
  import opened RateLimiter

  datatype Config = Config(limit: int, window: int)

  datatype Op = Request(user: string, now: int) | Sweep(now: int)

  function Step(c: Config, view: View, op: Op): (View, bool) {
    match op
    case Request(user, now) => AllowSpec(view, c.limit, c.window, user, now)
    case Sweep(now) => (CleanupSpec(view, now - c.window), false)
  }

  /** A run from an empty limiter: the states before and after each operation, and what each request was told. */
  datatype Run = Run(ops: seq<Op>, views: seq<View>, admitted: seq<bool>)

  ghost predicate IsRun(c: Config, r: Run) {
    && |r.views| == |r.ops| + 1 && |r.admitted| == |r.ops|
    && r.views[0] == map[]
    && forall i | 0 <= i < |r.ops| :: StepAt(c, r, i)
  }

  ghost predicate StepAt(c: Config, r: Run, i: nat)
    requires |r.views| == |r.ops| + 1 && |r.admitted| == |r.ops| && i < |r.ops|
  {
    (r.views[i + 1], r.admitted[i]) == Step(c, r.views[i], r.ops[i])
  }

  /** The i-th operation is a request of this user. */
  predicate Mine(ops: seq<Op>, user: string, i: int) {
    0 <= i < |ops| && ops[i].Request? && ops[i].user == user
  }

  /** The operation may change what is kept for this user. */
  predicate Touches(op: Op, user: string) {
    op.Sweep? || op.user == user
  }

  /** The times of those of this user's first k operations that a selection picks. */
  function Picked(ops: seq<Op>, selection: seq<bool>, user: string, k: nat): seq<int>
    requires |selection| == |ops| && k <= |ops|
  {
    if k == 0 then []
    else
      var before := Picked(ops, selection, user, k - 1);
      if Mine(ops, user, k - 1) && selection[k - 1] then before + [ops[k - 1].now] else before
  }

  lemma {:induction false} PickedBounded(ops: seq<Op>, selection: seq<bool>, user: string, k: nat, hi: int)
    requires |selection| == |ops| && k <= |ops|
    requires forall i | 0 <= i < k :: ops[i].now <= hi
    ensures forall i | 0 <= i < |Picked(ops, selection, user, k)| :: Picked(ops, selection, user, k)[i] <= hi
  {
    if k > 0 {
      PickedBounded(ops, selection, user, k - 1, hi);
    }
  }

  /** How many of the times lie in the half-open interval (lo, hi]. */
  function Within(times: seq<int>, lo: int, hi: int): nat {
    if times == [] then 0
    else
      var n := |times| - 1;
      Within(times[..n], lo, hi) + if lo < times[n] <= hi then 1 else 0
  }

  lemma WithinSnoc(times: seq<int>, t: int, lo: int, hi: int)
    ensures Within(times + [t], lo, hi) == Within(times, lo, hi) + if lo < t <= hi then 1 else 0
  {
    assert (times + [t])[..|times|] == times;
  }

  lemma {:induction false} WithinIsRecent(times: seq<int>, lo: int, hi: int)
    requires forall i | 0 <= i < |times| :: times[i] <= hi
    ensures Within(times, lo, hi) == |Recent(times, lo)|
  {
    if times != [] {
      WithinIsRecent(times[..|times| - 1], lo, hi);
    }
  }

  lemma {:induction false} WithinAtMostRecent(times: seq<int>, lo: int, hi: int, cutoff: int)
    requires cutoff <= lo
    ensures Within(times, lo, hi) <= |Recent(times, cutoff)|
  {
    if times != [] {
      WithinAtMostRecent(times[..|times| - 1], lo, hi, cutoff);
    }
  }

  lemma {:induction false} PruningKeepsWithin(times: seq<int>, cutoff: int, lo: int, hi: int)
    requires forall i | 0 <= i < |times| :: lo < times[i] <= hi ==> times[i] > cutoff
    ensures Within(Recent(times, cutoff), lo, hi) == Within(times, lo, hi)
  {
    if times != [] {
      var n := |times| - 1;
      PruningKeepsWithin(times[..n], cutoff, lo, hi);
      WithinSnoc(Recent(times[..n], cutoff), times[n], lo, hi);
    }
  }

  lemma {:induction false} NoneWithin(times: seq<int>, lo: int, hi: int)
    requires forall i | 0 <= i < |times| :: !(lo < times[i] <= hi)
    ensures Within(times, lo, hi) == 0
  {
    if times != [] {
      NoneWithin(times[..|times| - 1], lo, hi);
    }
  }

  // ---------------------------------------------------------------- one operation

  lemma RequestStep(c: Config, r: Run, i: nat, user: string)
    requires IsRun(c, r) && Mine(r.ops, user, i)
    ensures var valid := Recent(Get(r.views[i], user), r.ops[i].now - c.window);
            && (r.admitted[i] <==> |valid| < c.limit)
            && Get(r.views[i + 1], user) == if r.admitted[i] then valid + [r.ops[i].now] else valid
  {
    assert StepAt(c, r, i);
  }

  lemma OtherStep(c: Config, r: Run, i: nat, user: string)
    requires IsRun(c, r) && i < |r.ops| && !Mine(r.ops, user, i)
    ensures || Get(r.views[i + 1], user) == Get(r.views[i], user)
            || (r.ops[i].Sweep? && Get(r.views[i + 1], user) == []
                && forall t | t in Get(r.views[i], user) :: t <= r.ops[i].now - c.window)
  {
    assert StepAt(c, r, i);
  }

  // ---------------------------------------------------------------- what the buffer holds

  /** These are the times of the user's admitted requests of these indices, in call order. */
  ghost predicate Tracks(r: Run, user: string, k: nat, times: seq<int>, idx: seq<nat>)
    requires |r.admitted| == |r.ops|
  {
    && |idx| == |times|
    && (forall p | 0 <= p < |idx| ::
          idx[p] < k && Mine(r.ops, user, idx[p]) && r.admitted[idx[p]] && times[p] == r.ops[idx[p]].now)
    && (forall p, o | 0 <= p < o < |idx| :: idx[p] < idx[o])
  }

  /** No request of the user since has read a cutoff at which one of these had to go. */
  ghost predicate Unpruned(c: Config, ops: seq<Op>, user: string, k: nat, idx: seq<nat>) {
    forall p, x: nat | 0 <= p < |idx| && idx[p] < x < k && Mine(ops, user, x) && idx[p] < |ops| ::
      ops[idx[p]].now > ops[x].now - c.window
  }

  lemma {:induction false} TrackRecent(r: Run, user: string, k: nat, times: seq<int>, idx: seq<nat>, cutoff: int)
    returns (sub: seq<nat>)
    requires |r.admitted| == |r.ops| && Tracks(r, user, k, times, idx)
    ensures Tracks(r, user, k, Recent(times, cutoff), sub)
    ensures forall p | 0 <= p < |sub| :: sub[p] in idx && r.ops[sub[p]].now > cutoff
  {
    if times == [] {
      return [];
    }
    var n := |times| - 1;
    sub := TrackRecent(r, user, k, times[..n], idx[..n], cutoff);
    forall p | 0 <= p < |sub| ensures sub[p] in idx && sub[p] < idx[n] {
      var o :| 0 <= o < n && idx[..n][o] == sub[p];
      assert idx[o] == sub[p];
    }
    if times[n] > cutoff {
      sub := sub + [idx[n]];
    }
  }

  /** Pruning and recording, as a request does. */
  lemma RequestTracked(c: Config, r: Run, user: string, i: nat, times: seq<int>, idx: seq<nat>) returns (next: seq<nat>)
    requires |r.admitted| == |r.ops| && Mine(r.ops, user, i)
    requires Tracks(r, user, i, times, idx) && Unpruned(c, r.ops, user, i, idx)
    ensures var valid := Recent(times, r.ops[i].now - c.window);
            Tracks(r, user, i + 1, if r.admitted[i] then valid + [r.ops[i].now] else valid, next)
    ensures Unpruned(c, r.ops, user, i + 1, next)
  {
    var kept := TrackRecent(r, user, i, times, idx, r.ops[i].now - c.window);
    KeptUnpruned(c, r.ops, user, i, idx, kept);
    if r.admitted[i] {
      var valid := Recent(times, r.ops[i].now - c.window);
      TrackSnoc(c, r, user, i, valid, kept);
      next := kept + [i];
    } else {
      next := kept;
    }
  }

  lemma KeptUnpruned(c: Config, ops: seq<Op>, user: string, i: nat, idx: seq<nat>, kept: seq<nat>)
    requires Unpruned(c, ops, user, i, idx) && i < |ops|
    requires forall p | 0 <= p < |kept| :: kept[p] in idx && kept[p] < i && ops[kept[p]].now > ops[i].now - c.window
    ensures Unpruned(c, ops, user, i + 1, kept)
  {
    forall p, x: nat | 0 <= p < |kept| && kept[p] < x <= i && Mine(ops, user, x)
      ensures ops[kept[p]].now > ops[x].now - c.window
    {
      if x < i {
        FromTracked(c, ops, user, i, idx, kept[p]);
      }
    }
  }

  lemma TrackSnoc(c: Config, r: Run, user: string, i: nat, times: seq<int>, idx: seq<nat>)
    requires |r.admitted| == |r.ops| && Mine(r.ops, user, i) && r.admitted[i]
    requires Tracks(r, user, i, times, idx) && Unpruned(c, r.ops, user, i + 1, idx)
    ensures Tracks(r, user, i + 1, times + [r.ops[i].now], idx + [i])
    ensures Unpruned(c, r.ops, user, i + 1, idx + [i])
  {
    forall p, x: nat | 0 <= p < |idx + [i]| && (idx + [i])[p] < x <= i && Mine(r.ops, user, x)
      ensures r.ops[(idx + [i])[p]].now > r.ops[x].now - c.window
    {
      assert (idx + [i])[p] == idx[p];
    }
  }

  lemma FromTracked(c: Config, ops: seq<Op>, user: string, i: nat, idx: seq<nat>, m: nat)
    requires Unpruned(c, ops, user, i, idx) && m in idx && m < |ops|
    ensures forall x | m < x < i && Mine(ops, user, x) :: ops[m].now > ops[x].now - c.window
  {
    var p :| 0 <= p < |idx| && idx[p] == m;
  }

  /** After k operations the user's buffer holds admitted requests of the user, none of which had to go. */
  lemma {:induction false} BufferTracked(c: Config, r: Run, user: string, k: nat) returns (idx: seq<nat>)
    requires IsRun(c, r) && k <= |r.ops|
    ensures Tracks(r, user, k, Get(r.views[k], user), idx) && Unpruned(c, r.ops, user, k, idx)
  {
    if k == 0 {
      return [];
    }
    var i := k - 1;
    idx := BufferTracked(c, r, user, i);
    if Mine(r.ops, user, i) {
      RequestStep(c, r, i, user);
      idx := RequestTracked(c, r, user, i, Get(r.views[i], user), idx);
    } else {
      OtherStep(c, r, i, user);
      if Get(r.views[k], user) == [] {
        idx := [];
      }
    }
  }

  /**
   * Where no operation since has read a cutoff at which an admission of (lo, hi] had to go, the buffer holds all the
   * history's admissions of that interval.
   */
  lemma {:induction false} BufferIsHistory(c: Config, r: Run, user: string, k: nat, lo: int, hi: int)
    requires IsRun(c, r) && k <= |r.ops|
    requires forall q, s | 0 <= q < s < k && Mine(r.ops, user, q) && Touches(r.ops[s], user) ::
               lo < r.ops[q].now <= hi ==> r.ops[q].now > r.ops[s].now - c.window
    ensures Within(Get(r.views[k], user), lo, hi) == Within(Picked(r.ops, r.admitted, user, k), lo, hi)
  {
    if k > 0 {
      var i := k - 1;
      BufferIsHistory(c, r, user, i, lo, hi);
      BufferStepKeepsWithin(c, r, user, i, lo, hi);
      WithinSnoc(Picked(r.ops, r.admitted, user, i), r.ops[i].now, lo, hi);
    }
  }

  lemma BufferStepKeepsWithin(c: Config, r: Run, user: string, i: nat, lo: int, hi: int)
    requires IsRun(c, r) && i < |r.ops|
    requires forall q | 0 <= q < i && Mine(r.ops, user, q) && Touches(r.ops[i], user) ::
               lo < r.ops[q].now <= hi ==> r.ops[q].now > r.ops[i].now - c.window
    ensures Within(Get(r.views[i + 1], user), lo, hi)
         == Within(Get(r.views[i], user), lo, hi)
          + if Mine(r.ops, user, i) && r.admitted[i] && lo < r.ops[i].now <= hi then 1 else 0
  {
    var times, cutoff := Get(r.views[i], user), r.ops[i].now - c.window;
    var idx := BufferTracked(c, r, user, i);
    if Mine(r.ops, user, i) {
      RequestStep(c, r, i, user);
      PruningKeepsWithin(times, cutoff, lo, hi);
      WithinSnoc(Recent(times, cutoff), r.ops[i].now, lo, hi);
    } else {
      OtherStep(c, r, i, user);
      if Get(r.views[i + 1], user) != times {
        forall p | 0 <= p < |times| ensures !(lo < times[p] <= hi) {
          assert times[p] in times;
        }
        NoneWithin(times, lo, hi);
      }
    }
  }

  // ---------------------------------------------------------------- full-history refinement

  /** A cutoff read at ts has dropped an admission at tq that still counts at ti. */
  predicate Erased(window: int, tq: int, ts: int, ti: int) {
    ti - window < tq <= ts - window
  }

  /** Before request i, a request of its user was followed by an operation that may have erased it for i. */
  ghost predicate Forgets(window: int, ops: seq<Op>, i: nat)
    requires i < |ops| && ops[i].Request?
  {
    exists q, s | 0 <= q < s < i ::
      Mine(ops, ops[i].user, q) && Touches(ops[s], ops[i].user) && Erased(window, ops[q].now, ops[s].now, ops[i].now)
  }

  function Latest(ops: seq<Op>): (hi: int)
    ensures forall i | 0 <= i < |ops| :: ops[i].now <= hi
  {
    if ops == [] then 0
    else
      var n := |ops| - 1;
      var rest := Latest(ops[..n]);
      assert forall i | 0 <= i < n :: ops[i] == ops[..n][i];
      if ops[n].now > rest then ops[n].now else rest
  }

  /** The decision is the full-history one: fewer than `limit` past admissions lie after now - window. */
  ghost predicate DecidesByHistory(c: Config, r: Run, i: nat)
    requires |r.admitted| == |r.ops| && i < |r.ops| && r.ops[i].Request?
  {
    r.admitted[i] <==> |Recent(Picked(r.ops, r.admitted, r.ops[i].user, i), r.ops[i].now - c.window)| < c.limit
  }

  lemma RefinesFullHistory(c: Config, r: Run, i: nat)
    requires IsRun(c, r) && i < |r.ops| && r.ops[i].Request? && !Forgets(c.window, r.ops, i)
    ensures DecidesByHistory(c, r, i)
  {
    var user, cutoff, hi := r.ops[i].user, r.ops[i].now - c.window, Latest(r.ops);
    var times := Get(r.views[i], user);
    RequestStep(c, r, i, user);
    BufferIsHistory(c, r, user, i, cutoff, hi);
    var idx := BufferTracked(c, r, user, i);
    WithinIsRecent(times, cutoff, hi);
    PickedBounded(r.ops, r.admitted, user, i, hi);
    WithinIsRecent(Picked(r.ops, r.admitted, user, i), cutoff, hi);
  }

  // ---------------------------------------------------------------- the window bound

  /** How many of the user's first k operations are selected and lie in (t - window, t]. */
  function InWindow(c: Config, ops: seq<Op>, selection: seq<bool>, user: string, k: nat, t: int): nat
    requires |selection| == |ops| && k <= |ops|
  {
    Within(Picked(ops, selection, user, k), t - c.window, t)
  }

  function Cap(c: Config): nat {
    if c.limit < 0 then 0 else c.limit
  }

  /** A request of the user may have been erased for a later one that lies in a window with it. */
  ghost predicate Lapses(window: int, ops: seq<Op>, user: string) {
    exists q, s, i | 0 <= q < s < i < |ops| ::
      Mine(ops, user, q) && Touches(ops[s], user) && Mine(ops, user, i)
      && Erased(window, ops[q].now, ops[s].now, ops[i].now) && ops[q].now < ops[i].now + window
  }

  /** In any run and at any instant at most `limit` admissions of the user lie in (t - window, t]. */
  lemma {:induction false} WindowBound(c: Config, r: Run, user: string, k: nat, t: int)
    requires IsRun(c, r) && k <= |r.ops| && !Lapses(c.window, r.ops, user)
    ensures InWindow(c, r.ops, r.admitted, user, k, t) <= Cap(c)
  {
    if k > 0 {
      var i := k - 1;
      var now, lo := r.ops[i].now, t - c.window;
      WindowBound(c, r, user, i, t);
      WithinSnoc(Picked(r.ops, r.admitted, user, i), now, lo, t);
      if Mine(r.ops, user, i) && r.admitted[i] && lo < now <= t {
        RequestStep(c, r, i, user);
        BufferIsHistory(c, r, user, i, lo, t);
        WithinAtMostRecent(Get(r.views[i], user), lo, t, now - c.window);
      }
    }
  }

  // ---------------------------------------------------------------- optimality

  /** A selection of requests that respects the limit for this user at every instant. */
  ghost predicate Feasible(c: Config, ops: seq<Op>, selection: seq<bool>, user: string)
    requires |selection| == |ops|
  {
    forall t :: InWindow(c, ops, selection, user, |ops|, t) <= Cap(c)
  }

  lemma {:induction false} InWindowGrows(
    c: Config, ops: seq<Op>, selection: seq<bool>, user: string, k: nat, l: nat, t: int)
    requires |selection| == |ops| && k <= l <= |ops|
    ensures InWindow(c, ops, selection, user, k, t) <= InWindow(c, ops, selection, user, l, t)
    decreases l
  {
    if k < l {
      InWindowGrows(c, ops, selection, user, k, l - 1, t);
      WithinSnoc(Picked(ops, selection, user, l - 1), ops[l - 1].now, t - c.window, t);
    }
  }

  lemma FeasibleAt(c: Config, ops: seq<Op>, selection: seq<bool>, user: string, k: nat, t: int)
    requires |selection| == |ops| && k <= |ops| && Feasible(c, ops, selection, user)
    ensures Within(Picked(ops, selection, user, k), t - c.window, t) <= Cap(c)
  {
    InWindowGrows(c, ops, selection, user, k, |ops|, t);
    assert InWindow(c, ops, selection, user, |ops|, t) <= Cap(c);
  }

  /** A request called at ta counts against a later one called at tb although no window holds both. */
  predicate Overtakes(window: int, ta: int, tb: int) {
    ta >= tb + window && ta > tb - window
  }

  /** A request called at tm, first of the three, conflicts with both of two that do not conflict with each other. */
  predicate Splits(window: int, tm: int, ta: int, tb: int) {
    ta + window <= tb < tm + window
  }

  ghost predicate Disordered(window: int, ops: seq<Op>, user: string) {
    || (exists a, b | 0 <= a < b < |ops| ::
          Mine(ops, user, a) && Mine(ops, user, b) && Overtakes(window, ops[a].now, ops[b].now))
    || (exists m, a, b | 0 <= m < a < b < |ops| ::
          Mine(ops, user, m) && Mine(ops, user, a) && Mine(ops, user, b)
          && Splits(window, ops[m].now, ops[a].now, ops[b].now))
  }

  lemma NotOvertaken(window: int, ops: seq<Op>, user: string, a: nat, b: nat)
    requires a < b && Mine(ops, user, a) && Mine(ops, user, b) && !Disordered(window, ops, user)
    ensures !Overtakes(window, ops[a].now, ops[b].now)
  {
  }

  lemma NotSplit(window: int, ops: seq<Op>, user: string, m: nat, a: nat, b: nat)
    requires m < a < b && Mine(ops, user, m) && Mine(ops, user, a) && Mine(ops, user, b)
    requires !Disordered(window, ops, user)
    ensures !Splits(window, ops[m].now, ops[a].now, ops[b].now)
  {
  }

  lemma {:induction false} TrackedAtMostPicked(r: Run, user: string, m: nat, k: nat, times: seq<int>, idx: seq<nat>)
    requires |r.admitted| == |r.ops| && m <= k <= |r.ops| && Tracks(r, user, k, times, idx)
    requires forall p | 0 <= p < |idx| :: m <= idx[p]
    ensures |idx| <= |Picked(r.ops, r.admitted, user, k)| - |Picked(r.ops, r.admitted, user, m)|
    decreases k
  {
    var n := |idx|;
    if n > 0 && idx[n - 1] == k - 1 {
      TrackedAtMostPicked(r, user, m, k - 1, times[..n - 1], idx[..n - 1]);
    } else if m < k {
      TrackedAtMostPicked(r, user, m, k - 1, times, idx);
    }
  }

  /** If all the user's requests from m on lie in (lo, hi], so do all that are picked of them. */
  lemma {:induction false} PickedSinceWithin(
    ops: seq<Op>, selection: seq<bool>, user: string, m: nat, k: nat, lo: int, hi: int)
    requires |selection| == |ops| && m <= k <= |ops|
    requires forall x | m <= x < k && Mine(ops, user, x) :: lo < ops[x].now <= hi
    ensures |Picked(ops, selection, user, k)| - |Picked(ops, selection, user, m)|
         <= Within(Picked(ops, selection, user, k), lo, hi)
    decreases k
  {
    if m < k {
      PickedSinceWithin(ops, selection, user, m, k - 1, lo, hi);
      WithinSnoc(Picked(ops, selection, user, k - 1), ops[k - 1].now, lo, hi);
    }
  }

  lemma {:induction false} LatestMine(ops: seq<Op>, user: string, m: nat, i: nat) returns (x: nat)
    requires m <= i && Mine(ops, user, i)
    ensures m <= x <= i && Mine(ops, user, x)
    ensures forall y | m <= y <= i && Mine(ops, user, y) :: ops[y].now <= ops[x].now
    decreases i - m
  {
    if m == i {
      return i;
    }
    x := LatestMine(ops, user, m + 1, i);
    if Mine(ops, user, m) && ops[m].now > ops[x].now {
      x := m;
    }
  }

  /** From a request that request i still counts on, all the user's requests up to i lie in one window. */
  lemma OneWindow(c: Config, ops: seq<Op>, user: string, m: nat, i: nat) returns (t: int)
    requires c.window > 0 && m <= i && Mine(ops, user, m) && Mine(ops, user, i) && !Disordered(c.window, ops, user)
    requires forall x | m < x <= i && Mine(ops, user, x) :: ops[m].now > ops[x].now - c.window
    ensures forall y | m <= y <= i && Mine(ops, user, y) :: t - c.window < ops[y].now <= t
  {
    var x := LatestMine(ops, user, m, i);
    t := ops[x].now;
    forall y | m <= y <= i && Mine(ops, user, y) ensures t - c.window < ops[y].now {
      if x < y {
        NotOvertaken(c.window, ops, user, x, y);
      } else if m < y < x {
        NotSplit(c.window, ops, user, m, y, x);
      }
    }
  }

  /** So a feasible selection takes at most the limit of them. */
  lemma SelectedSince(c: Config, ops: seq<Op>, selection: seq<bool>, user: string, m: nat, i: nat)
    requires c.window > 0 && m <= i && Mine(ops, user, m) && Mine(ops, user, i) && !Disordered(c.window, ops, user)
    requires forall x | m < x <= i && Mine(ops, user, x) :: ops[m].now > ops[x].now - c.window
    requires |selection| == |ops| && Feasible(c, ops, selection, user)
    ensures |Picked(ops, selection, user, i + 1)| - |Picked(ops, selection, user, m)| <= Cap(c)
  {
    var t := OneWindow(c, ops, user, m, i);
    PickedSinceWithin(ops, selection, user, m, i + 1, t - c.window, t);
    FeasibleAt(c, ops, selection, user, i + 1, t);
  }

  /** When request i is denied, the oldest request the buffer then holds is one that i counts on. */
  lemma DeniedSince(c: Config, r: Run, user: string, i: nat) returns (m: nat)
    requires IsRun(c, r) && Mine(r.ops, user, i) && !r.admitted[i]
    requires (c.window > 0 || c.limit > 0) && !Disordered(c.window, r.ops, user)
    ensures c.window > 0 && m <= i && Mine(r.ops, user, m)
    ensures forall x | m < x <= i && Mine(r.ops, user, x) :: r.ops[m].now > r.ops[x].now - c.window
    ensures |Picked(r.ops, r.admitted, user, i + 1)| - |Picked(r.ops, r.admitted, user, m)| >= Cap(c)
  {
    RequestStep(c, r, i, user);
    var idx := BufferTracked(c, r, user, i + 1);
    if idx == [] {
      m := i;
    } else {
      m := idx[0];
      OldestHeld(c, r, user, i, Get(r.views[i + 1], user), idx);
    }
  }

  lemma OldestHeld(c: Config, r: Run, user: string, i: nat, times: seq<int>, idx: seq<nat>)
    requires |r.admitted| == |r.ops| && Mine(r.ops, user, i) && !r.admitted[i] && idx != []
    requires Tracks(r, user, i + 1, times, idx) && Unpruned(c, r.ops, user, i + 1, idx)
    requires !Disordered(c.window, r.ops, user)
    ensures idx[0] < i && Mine(r.ops, user, idx[0]) && c.window > 0
    ensures forall x | idx[0] < x <= i && Mine(r.ops, user, x) :: r.ops[idx[0]].now > r.ops[x].now - c.window
    ensures |times| <= |Picked(r.ops, r.admitted, user, i + 1)| - |Picked(r.ops, r.admitted, user, idx[0])|
  {
    TrackedAtMostPicked(r, user, idx[0], i + 1, times, idx);
    FromTracked(c, r.ops, user, i + 1, idx, idx[0]);
    NotOvertaken(c.window, r.ops, user, idx[0], i);
  }

  /**
   * Greedy admission is optimal: on every prefix of every run the limiter admits at least as many of a user's
   * requests as any selection that keeps to the limit. Other users, and cleanups at whatever time, do not matter.
   */
  lemma {:induction false} GreedyIsOptimal(c: Config, r: Run, selection: seq<bool>, user: string, k: nat)
    requires IsRun(c, r) && |selection| == |r.ops| && k <= |r.ops|
    requires (c.window > 0 || c.limit > 0) && !Disordered(c.window, r.ops, user)
    requires Feasible(c, r.ops, selection, user)
    ensures |Picked(r.ops, selection, user, k)| <= |Picked(r.ops, r.admitted, user, k)|
    decreases k
  {
    if k > 0 {
      var i := k - 1;
      GreedyIsOptimal(c, r, selection, user, i);
      if Mine(r.ops, user, i) && selection[i] && !r.admitted[i] {
        var m := DeniedSince(c, r, user, i);
        GreedyIsOptimal(c, r, selection, user, m);
        SelectedSince(c, r.ops, selection, user, m, i);
      }
    }
  }
}
