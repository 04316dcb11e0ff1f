/**
 * The clock is read before the lock is taken, so operations may be served out of time order. For each guarantee of the
 * limiter this module says exactly which orders of clock readings it survives, whoever the operations belong to.
 */
module ClockOrder {
  import opened RateLimiter
  import opened RateLimiterRuns

  function Times(ops: seq<Op>): seq<int> {
    seq(|ops|, i requires 0 <= i < |ops| => ops[i].now)
  }

  /** A run, with this window, whose operations read these times. */
  ghost predicate Reads(c: Config, r: Run, window: int, times: seq<int>) {
    IsRun(c, r) && c.window == window && Times(r.ops) == times
  }

  // ---------------------------------------------------------------- runs with given readings

  /** One user's requests at some indices, at most one cleanup, and requests of another user everywhere else. */
  function Labelled(times: seq<int>, mine: set<nat>, sweep: int): (ops: seq<Op>)
    ensures |ops| == |times| && Times(ops) == times
    ensures forall i | 0 <= i < |ops| :: ops[i] == if i == sweep then Sweep(times[i]) else
              Request(if i in mine then "u" else "v", times[i])
  {
    seq(|times|, i requires 0 <= i < |times| =>
      if i == sweep then Sweep(times[i]) else Request(if i in mine then "u" else "v", times[i]))
  }

  lemma {:induction false} RunExists(c: Config, ops: seq<Op>) returns (r: Run)
    ensures IsRun(c, r) && r.ops == ops
  {
    if ops == [] {
      return Run([], [map[]], []);
    }
    var n := |ops| - 1;
    var before := RunExists(c, ops[..n]);
    var (view, ok) := Step(c, before.views[n], ops[n]);
    r := Run(ops, before.views + [view], before.admitted + [ok]);
    forall i | 0 <= i < |ops| ensures StepAt(c, r, i) {
      assert i < n ==> StepAt(c, before, i);
    }
  }

  /** Operations that do not touch the user change neither the buffer nor what is picked of the user's requests. */
  lemma {:induction false} Idle(c: Config, r: Run, selection: seq<bool>, user: string, j: nat, k: nat)
    requires IsRun(c, r) && |selection| == |r.ops| && j <= k <= |r.ops|
    requires forall i | j <= i < k :: !Touches(r.ops[i], user)
    ensures Get(r.views[k], user) == Get(r.views[j], user)
    ensures Picked(r.ops, selection, user, k) == Picked(r.ops, selection, user, j)
    decreases k
  {
    if j < k {
      Idle(c, r, selection, user, j, k - 1);
      OtherStep(c, r, k - 1, user);
    }
  }

  lemma RecentOne(t: int, cutoff: int)
    ensures Recent([t], cutoff) == if t > cutoff then [t] else []
  {
    RecentSnoc([], t, cutoff);
    assert [] + [t] == [t] && Recent([], cutoff) == [];
  }

  /** A request that meets an empty buffer is admitted. */
  lemma AdmittedNext(c: Config, r: Run, user: string, j: nat, i: nat)
    requires IsRun(c, r) && j <= i && Mine(r.ops, user, i) && c.limit > 0
    requires Get(r.views[j], user) == [] && forall x | j <= x < i :: !Touches(r.ops[x], user)
    ensures r.admitted[i] && Get(r.views[i + 1], user) == [r.ops[i].now]
    ensures Picked(r.ops, r.admitted, user, i) == Picked(r.ops, r.admitted, user, j)
    ensures Picked(r.ops, r.admitted, user, i + 1) == Picked(r.ops, r.admitted, user, j) + [r.ops[i].now]
  {
    Idle(c, r, r.admitted, user, j, i);
    RequestStep(c, r, i, user);
    assert Recent([], r.ops[i].now - c.window) == [];
  }

  /** With a limit of 1, a request that meets a recent admission is denied. */
  lemma DeniedNext(c: Config, r: Run, user: string, j: nat, i: nat, t: int)
    requires IsRun(c, r) && j <= i && Mine(r.ops, user, i) && c.limit == 1 && t > r.ops[i].now - c.window
    requires Get(r.views[j], user) == [t] && forall x | j <= x < i :: !Touches(r.ops[x], user)
    ensures Get(r.views[i + 1], user) == [t]
    ensures Picked(r.ops, r.admitted, user, i + 1) == Picked(r.ops, r.admitted, user, j)
  {
    Idle(c, r, r.admitted, user, j, i);
    RequestStep(c, r, i, user);
    RecentOne(t, r.ops[i].now - c.window);
  }

  lemma SelectedNext(c: Config, r: Run, selection: seq<bool>, user: string, j: nat, i: nat)
    requires IsRun(c, r) && |selection| == |r.ops| && j <= i && Mine(r.ops, user, i) && selection[i]
    requires forall x | j <= x < i :: !Touches(r.ops[x], user)
    ensures Picked(r.ops, selection, user, i + 1) == Picked(r.ops, selection, user, j) + [r.ops[i].now]
  {
    Idle(c, r, selection, user, j, i);
  }

  lemma SweptNext(c: Config, r: Run, user: string, j: nat, s: nat, t: int)
    requires IsRun(c, r) && j <= s < |r.ops| && r.ops[s].Sweep? && t <= r.ops[s].now - c.window
    requires Get(r.views[j], user) == [t] && forall x | j <= x < s :: !Touches(r.ops[x], user)
    ensures Get(r.views[s + 1], user) == []
    ensures Picked(r.ops, r.admitted, user, s + 1) == Picked(r.ops, r.admitted, user, j)
  {
    Idle(c, r, r.admitted, user, j, s);
    assert StepAt(c, r, s);
  }

  lemma WithinTwo(s: int, t: int, lo: int, hi: int)
    ensures Within([s, t], lo, hi) == (if lo < s <= hi then 1 else 0) + if lo < t <= hi then 1 else 0
  {
    assert [s, t] == ([] + [s]) + [t];
    WithinSnoc([] + [s], t, lo, hi);
    WithinSnoc([], s, lo, hi);
  }

  // ---------------------------------------------------------------- erasing

  lemma ErasedNext(c: Config, r: Run, user: string, q: nat, s: nat, i: nat)
    requires IsRun(c, r) && c.limit > 0 && q < s < i && Mine(r.ops, user, q) && Mine(r.ops, user, i)
    requires r.ops[s].Sweep? && r.ops[q].now <= r.ops[s].now - c.window
    requires forall x | 0 <= x < i && x != q && x != s :: !Touches(r.ops[x], user)
    ensures r.admitted[i] && Picked(r.ops, r.admitted, user, i) == [r.ops[q].now]
    ensures Picked(r.ops, r.admitted, user, i + 1) == [r.ops[q].now, r.ops[i].now]
  {
    AdmittedNext(c, r, user, 0, q);
    SweptNext(c, r, user, q + 1, s, r.ops[q].now);
    AdmittedNext(c, r, user, s + 1, i);
  }

  /** A cleanup between two requests that has read too late a clock: with a limit of 1 both are admitted. */
  lemma ErasedAdmitsBoth(window: int, times: seq<int>, q: nat, s: nat, i: nat) returns (r: Run)
    requires q < s < i < |times| && Erased(window, times[q], times[s], times[i])
    ensures Reads(Config(1, window), r, window, times) && Mine(r.ops, "u", i) && r.admitted[i]
    ensures Picked(r.ops, r.admitted, "u", i) == [times[q]]
    ensures Picked(r.ops, r.admitted, "u", i + 1) == [times[q], times[i]]
  {
    r := RunExists(Config(1, window), Labelled(times, {q, i}, s));
    ErasedNext(Config(1, window), r, "u", q, s, i);
  }

  ghost predicate FollowsHistory(c: Config, r: Run)
    requires IsRun(c, r)
  {
    forall i | 0 <= i < |r.ops| && r.ops[i].Request? :: DecidesByHistory(c, r, i)
  }

  /**
   * All runs with these clock readings decide by the full history exactly when no operation has read a cutoff past the
   * reading of an earlier one that still counts for a later one.
   */
  lemma RefinementExactly(window: int, times: seq<int>)
    ensures (forall c, r | Reads(c, r, window, times) :: FollowsHistory(c, r)) <==>
            !exists q, s, i | 0 <= q < s < i < |times| :: Erased(window, times[q], times[s], times[i])
  {
    if q, s, i :| 0 <= q < s < i < |times| && Erased(window, times[q], times[s], times[i]) {
      var r := ErasedAdmitsBoth(window, times, q, s, i);
      RecentOne(times[q], times[i] - window);
      assert !DecidesByHistory(Config(1, window), r, i);
    } else {
      forall c, r | Reads(c, r, window, times) ensures FollowsHistory(c, r) {
        forall i | 0 <= i < |r.ops| && r.ops[i].Request? ensures DecidesByHistory(c, r, i) {
          assert forall q | 0 <= q < |r.ops| :: r.ops[q].now == times[q];
          RefinesFullHistory(c, r, i);
        }
      }
    }
  }

  ghost predicate Bounded(c: Config, r: Run)
    requires IsRun(c, r)
  {
    forall user, k: nat, t | k <= |r.ops| :: InWindow(c, r.ops, r.admitted, user, k, t) <= Cap(c)
  }

  /**
   * All runs with these clock readings keep the window bound exactly when none is so erased for one that lies in a
   * window with it.
   */
  lemma WindowBoundExactly(window: int, times: seq<int>)
    ensures (forall c, r | Reads(c, r, window, times) :: Bounded(c, r)) <==>
            !exists q, s, i | 0 <= q < s < i < |times| ::
              Erased(window, times[q], times[s], times[i]) && times[q] < times[i] + window
  {
    if q, s, i :| 0 <= q < s < i < |times| && Erased(window, times[q], times[s], times[i])
                  && times[q] < times[i] + window {
      var r := ErasedAdmitsBoth(window, times, q, s, i);
      var t := if times[q] < times[i] then times[i] else times[q];
      WithinTwo(times[q], times[i], t - window, t);
      assert InWindow(Config(1, window), r.ops, r.admitted, "u", i + 1, t) == 2;
    } else {
      forall c, r | Reads(c, r, window, times) ensures Bounded(c, r) {
        assert forall q | 0 <= q < |r.ops| :: r.ops[q].now == times[q];
        forall user, k: nat, t | k <= |r.ops| ensures InWindow(c, r.ops, r.admitted, user, k, t) <= Cap(c) {
          WindowBound(c, r, user, k, t);
        }
      }
    }
  }

  /** For one: readings 20, 30, 25 under a limit of 1 per 10; the cleanup that reads 30 drops the admission at 20. */
  lemma OutOfOrderBreaksBound() returns (r: Run)
    ensures Reads(Config(1, 10), r, 10, [20, 30, 25]) && InWindow(Config(1, 10), r.ops, r.admitted, "u", 3, 25) == 2
  {
    r := ErasedAdmitsBoth(10, [20, 30, 25], 0, 1, 2);
    WithinTwo(20, 25, 15, 25);
  }

  // ---------------------------------------------------------------- optimality

  ghost predicate Optimal(c: Config, r: Run)
    requires IsRun(c, r)
  {
    forall selection, user, k: nat | |selection| == |r.ops| && k <= |r.ops| && Feasible(c, r.ops, selection, user) ::
      |Picked(r.ops, selection, user, k)| <= |Picked(r.ops, r.admitted, user, k)|
  }

  /** Two requests that share no window may be selected together under a limit of 1. */
  lemma ApartIsFeasible(window: int, r: Run, selection: seq<bool>, b: nat, x: int, y: int)
    requires IsRun(Config(1, window), r) && |selection| == |r.ops| && b < |r.ops|
    requires forall i | b < i < |r.ops| :: !Touches(r.ops[i], "u")
    requires Picked(r.ops, selection, "u", b + 1) == [x, y] && (x >= y + window || y >= x + window)
    ensures Feasible(Config(1, window), r.ops, selection, "u")
  {
    var c := Config(1, window);
    Idle(c, r, selection, "u", b + 1, |r.ops|);
    forall t ensures InWindow(c, r.ops, selection, "u", |r.ops|, t) <= Cap(c) {
      WithinTwo(x, y, t - window, t);
    }
  }

  lemma OvertakingIsWorse(window: int, times: seq<int>, a: nat, b: nat) returns (r: Run)
    requires a < b < |times| && Overtakes(window, times[a], times[b])
    ensures Reads(Config(1, window), r, window, times) && !Optimal(Config(1, window), r)
  {
    var c, ops := Config(1, window), Labelled(times, {a, b}, -1);
    r := RunExists(c, ops);
    AdmittedNext(c, r, "u", 0, a);
    DeniedNext(c, r, "u", a + 1, b, times[a]);
    assert |Picked(ops, r.admitted, "u", b + 1)| == 1;
    var selection := seq(|ops|, _ => true);
    SelectedNext(c, r, selection, "u", 0, a);
    SelectedNext(c, r, selection, "u", a + 1, b);
    assert [] + [times[a]] + [times[b]] == [times[a], times[b]];
    ApartIsFeasible(window, r, selection, b, times[a], times[b]);
    assert |Picked(ops, selection, "u", b + 1)| == 2;
  }

  lemma SplitNext(c: Config, r: Run, user: string, m: nat, a: nat, b: nat)
    requires IsRun(c, r) && c.limit == 1 && m < a < b && Mine(r.ops, user, m) && Mine(r.ops, user, a)
    requires Mine(r.ops, user, b) && r.ops[m].now > r.ops[a].now - c.window && r.ops[m].now > r.ops[b].now - c.window
    requires forall x | 0 <= x < b && x != m && x != a :: !Touches(r.ops[x], user)
    ensures |Picked(r.ops, r.admitted, user, b + 1)| == 1
  {
    AdmittedNext(c, r, user, 0, m);
    DeniedNext(c, r, user, m + 1, a, r.ops[m].now);
    DeniedNext(c, r, user, a + 1, b, r.ops[m].now);
  }

  lemma SplittingIsWorse(window: int, times: seq<int>, m: nat, a: nat, b: nat) returns (r: Run)
    requires m < a < b < |times| && Splits(window, times[m], times[a], times[b])
    requires !Overtakes(window, times[m], times[b])
    ensures Reads(Config(1, window), r, window, times) && !Optimal(Config(1, window), r)
  {
    var c, ops := Config(1, window), Labelled(times, {m, a, b}, -1);
    r := RunExists(c, ops);
    SplitNext(c, r, "u", m, a, b);
    var selection := seq(|ops|, i => i != m);
    Idle(c, r, selection, "u", 0, m);
    SelectedNext(c, r, selection, "u", m + 1, a);
    SelectedNext(c, r, selection, "u", a + 1, b);
    assert [] + [times[a]] + [times[b]] == [times[a], times[b]];
    ApartIsFeasible(window, r, selection, b, times[a], times[b]);
    assert |Picked(ops, selection, "u", b + 1)| == 2;
  }

  /** Some later request is overtaken by an earlier one, or some first request splits two later ones. */
  ghost predicate Shuffled(window: int, times: seq<int>) {
    || (exists a, b | 0 <= a < b < |times| :: Overtakes(window, times[a], times[b]))
    || (exists m, a, b | 0 <= m < a < b < |times| :: Splits(window, times[m], times[a], times[b]))
  }

  /** Under all positive limits greedy admission is optimal for all runs with these readings exactly if they are not. */
  lemma OptimalityExactly(window: int, times: seq<int>)
    ensures (forall c, r | Reads(c, r, window, times) && c.limit > 0 :: Optimal(c, r)) <==> !Shuffled(window, times)
  {
    if a, b :| 0 <= a < b < |times| && Overtakes(window, times[a], times[b]) {
      var r := OvertakingIsWorse(window, times, a, b);
      assert Config(1, window).limit > 0;
    } else if m, a, b :| 0 <= m < a < b < |times| && Splits(window, times[m], times[a], times[b]) {
      var r := SplittingIsWorse(window, times, m, a, b);
      assert Config(1, window).limit > 0;
    } else {
      forall c, r | Reads(c, r, window, times) && c.limit > 0 ensures Optimal(c, r) {
        assert forall q | 0 <= q < |r.ops| :: r.ops[q].now == times[q];
        forall selection, user, k: nat |
          |selection| == |r.ops| && k <= |r.ops| && Feasible(c, r.ops, selection, user)
          ensures |Picked(r.ops, selection, user, k)| <= |Picked(r.ops, r.admitted, user, k)|
        {
          GreedyIsOptimal(c, r, selection, user, k);
        }
      }
    }
  }

  predicate Ordered(times: seq<int>) {
    forall i, j | 0 <= i < j < |times| :: times[i] <= times[j]
  }

  /** Readings in the order of service meet all three conditions. */
  lemma OrderedIsEnough(window: int, times: seq<int>)
    requires Ordered(times)
    ensures !exists q, s, i | 0 <= q < s < i < |times| :: Erased(window, times[q], times[s], times[i])
    ensures !Shuffled(window, times)
  {
  }

  // ---------------------------------------------------------------- without a positive limit

  /** With neither a positive window nor a positive limit, a single request is feasible and the limiter denies it. */
  lemma NothingAdmittedWithoutLimit(c: Config, user: string, now: int)
    requires c.window <= 0 && c.limit <= 0
    ensures exists r :: Reads(c, r, c.window, [now]) && !Optimal(c, r)
  {
    var r := RunExists(c, [Request(user, now)]);
    RequestStep(c, r, 0, user);
    assert Picked(r.ops, [true], user, 0) == [] && Picked(r.ops, r.admitted, user, 0) == [];
    assert Picked(r.ops, [true], user, 1) == [] + [now];
    forall t ensures InWindow(c, r.ops, [true], user, 1, t) == 0 {
      WithinSnoc([], now, t - c.window, t);
    }
    assert Feasible(c, r.ops, [true], user);
    assert Reads(c, r, c.window, [now]);
  }

  /** A limit of 0 does not disable the limiter: exactly the limits below 1 deny every request in every state. */
  lemma ZeroDeniesAll(limit: int, window: int)
    ensures (forall view, user, now :: !AllowSpec(view, limit, window, user, now).1) <==> limit <= 0
  {
    if limit > 0 {
      assert Recent([], 0 - window) == [];
      assert AllowSpec(map[], limit, window, "u", 0).1;
    }
  }
}
