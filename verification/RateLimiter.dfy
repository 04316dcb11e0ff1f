/**
 * The per-user sliding-window limiter. Each user owns a slice of timestamps that `Allow` compacts in place
 * inside its backing array; `Cleanup` drops the users without a recent timestamp.
 */
module RateLimiter {

  // ---------------------------------------------------------------- specification

  /** The timestamps later than the cutoff, in order. */
  function Recent(times: seq<int>, cutoff: int): (r: seq<int>)
    ensures |r| <= |times|
  {
    if times == [] then []
    else
      var last := times[|times| - 1];
      var rest := Recent(times[..|times| - 1], cutoff);
      if last > cutoff then rest + [last] else rest
  }

  type View = map<string, seq<int>>

  function Get(view: View, user: string): seq<int> {
    if user in view then view[user] else []
  }

  function AllowSpec(view: View, limit: int, window: int, user: string, now: int): (View, bool) {
    var valid := Recent(Get(view, user), now - window);
    if |valid| >= limit then (view[user := valid], false) else (view[user := valid + [now]], true)
  }

  predicate Active(times: seq<int>, cutoff: int) {
    exists t | t in times :: t > cutoff
  }

  function CleanupSpec(view: View, cutoff: int): View {
    map user | user in view && Active(view[user], cutoff) :: view[user]
  }

  lemma RecentSnoc(times: seq<int>, t: int, cutoff: int)
    ensures Recent(times + [t], cutoff) == Recent(times, cutoff) + if t > cutoff then [t] else []
  {
    assert (times + [t])[..|times|] == times;
  }

  lemma SameButOne(v: View, w: View, user: string, times: seq<int>)
    requires v - {user} == w - {user}
    ensures v[user := times] == w[user := times]
  {
    assert v[user := times] == (v - {user})[user := times];
    assert w[user := times] == (w - {user})[user := times];
  }

  // ---------------------------------------------------------------- the object

  /** A Go slice: `len` elements at the start of a backing array whose length is the capacity. */
  datatype Slice = Slice(buf: array<int>, len: nat)

  ghost predicate Fits(s: Slice) {
    s.len <= s.buf.Length
  }

  ghost function Elements(s: Slice): seq<int>
    requires Fits(s)
    reads s.buf
  {
    s.buf[..s.len]
  }

  /** `valid := ts[:0]`, then append every timestamp after the cutoff: the write index trails the read index. */
  method Compact(ts: Slice, cutoff: int) returns (valid: Slice)
    requires Fits(ts)
    modifies ts.buf
    ensures valid.buf == ts.buf && Fits(valid)
    ensures Elements(valid) == Recent(old(Elements(ts)), cutoff)
  {
    ghost var times := Elements(ts);
    var write := 0;
    for read := 0 to ts.len
      invariant write <= read
      invariant ts.buf[..write] == Recent(times[..read], cutoff)
      invariant forall i | read <= i < ts.len :: ts.buf[i] == times[i]
    {
      var t := ts.buf[read];
      assert t == times[read];
      RecentSnoc(times[..read], t, cutoff);
      assert times[..read] + [t] == times[..read + 1];
      if t > cutoff {
        ts.buf[write] := t;
        write := write + 1;
      }
    }
    assert times[..ts.len] == times;
    valid := Slice(ts.buf, write);
  }

  /** The built-in append: in place when the capacity allows, otherwise into a larger array. */
  method Append(s: Slice, x: int) returns (r: Slice)
    requires Fits(s)
    modifies s.buf
    ensures Fits(r) && (r.buf == s.buf || fresh(r.buf))
    ensures Elements(r) == old(Elements(s)) + [x]
  {
    if s.len < s.buf.Length {
      s.buf[s.len] := x;
      r := Slice(s.buf, s.len + 1);
    } else {
      var grown := new int[2 * s.len + 1];
      for i := 0 to s.len
        invariant grown[..i] == s.buf[..i]
        invariant s.buf[..] == old(s.buf[..])
      {
        grown[i] := s.buf[i];
      }
      grown[s.len] := x;
      r := Slice(grown, s.len + 1);
    }
  }

  method AnyAfter(s: Slice, cutoff: int) returns (active: bool)
    requires Fits(s)
    ensures active <==> Active(Elements(s), cutoff)
  {
    for i := 0 to s.len
      invariant forall j | 0 <= j < i :: s.buf[j] <= cutoff
    {
      if s.buf[i] > cutoff {
        assert s.buf[i] in Elements(s);
        return true;
      }
    }
    return false;
  }

  class Limiter {
    var windows: map<string, Slice>
    const limit: int
    const window: int

    ghost function Buffers(): set<array<int>>
      reads this
    {
      set user | user in windows :: windows[user].buf
    }

    /** Slices fit their arrays and no two users share a backing array. */
    ghost predicate Valid()
      reads this, Buffers()
    {
      && (forall user | user in windows :: Fits(windows[user]))
      && (forall u, v | u in windows && v in windows && u != v :: windows[u].buf != windows[v].buf)
    }

    ghost function Contents(): View
      requires Valid()
      reads this, Buffers()
    {
      map user | user in windows :: Elements(windows[user])
    }

    constructor (limit: int, window: int)
      ensures Valid() && Contents() == map[]
      ensures this.limit == limit && this.window == window
    {
      this.windows := map[];
      this.limit := limit;
      this.window := window;
    }

    method Allow(user: string, now: int) returns (ok: bool)
      requires Valid()
      modifies this, Buffers()
      ensures Valid() && fresh(Buffers() - old(Buffers()))
      ensures (Contents(), ok) == AllowSpec(old(Contents()), limit, window, user, now)
    {
      ghost var before := Contents();
      var valid := Prune(user, now - window);
      if valid.len >= limit {
        SameButOne(before, Contents(), user, Elements(valid));
        Put(user, valid);
        return false;
      }
      valid := Record(user, valid, now);
      SameButOne(before, Contents(), user, Elements(valid));
      Put(user, valid);
      return true;
    }

    /** Whether a slice may become this user's: it shares no array with anybody else's. */
    ghost predicate Own(user: string, s: Slice)
      reads this
    {
      Fits(s) && forall u | u in windows && u != user :: windows[u].buf != s.buf
    }

    /** Compacts the user's slice. The entry in `windows` keeps its old length until `Put`. */
    method Prune(user: string, cutoff: int) returns (valid: Slice)
      requires Valid()
      modifies Buffers()
      ensures Valid() && Own(user, valid) && (valid.buf in Buffers() || fresh(valid.buf))
      ensures Elements(valid) == Recent(Get(old(Contents()), user), cutoff)
      ensures Contents() - {user} == old(Contents()) - {user}
    {
      var timestamps := Fetch(user);
      valid := Compact(timestamps, cutoff);
    }

    method Record(user: string, s: Slice, now: int) returns (r: Slice)
      requires Valid() && Own(user, s)
      modifies s.buf
      ensures Valid() && Own(user, r) && (r.buf == s.buf || fresh(r.buf))
      ensures Elements(r) == old(Elements(s)) + [now]
      ensures Contents() - {user} == old(Contents()) - {user}
    {
      r := Append(s, now);
    }

    /** The user's slice, or an empty one for a user not seen yet. */
    method Fetch(user: string) returns (s: Slice)
      requires Valid()
      ensures Own(user, s) && (s.buf in Buffers() || fresh(s.buf))
      ensures Elements(s) == Get(Contents(), user)
    {
      if user in windows {
        s := windows[user];
      } else {
        var none := new int[0];
        s := Slice(none, 0);
      }
    }

    method Put(user: string, s: Slice)
      requires Valid() && Own(user, s)
      modifies this`windows
      ensures Valid() && Buffers() <= old(Buffers()) + {s.buf}
      ensures Contents() == old(Contents())[user := Elements(s)]
    {
      windows := windows[user := s];
    }

    /** Visits the users in arbitrary order, as a range over a map does, deleting as it goes. */
    method Cleanup(now: int)
      requires Valid()
      modifies this`windows
      ensures Valid() && Buffers() <= old(Buffers())
      ensures Contents() == CleanupSpec(old(Contents()), now - window)
    {
      var cutoff := now - window;
      var todo := windows.Keys;
      ghost var before, buffers := Contents(), Buffers();
      SurvivingEnds(before, cutoff);
      while todo != {}
        invariant Valid() && Buffers() <= buffers
        invariant todo <= before.Keys && Contents() == Surviving(before, todo, cutoff)
        decreases todo
      {
        var user :| user in todo;
        SurvivingStep(before, todo, user, cutoff);
        todo := todo - {user};
        Visit(user, cutoff);
      }
    }

    method Visit(user: string, cutoff: int)
      requires Valid() && user in windows
      modifies this`windows
      ensures Valid() && Buffers() <= old(Buffers())
      ensures Contents() == if Active(old(Contents())[user], cutoff) then old(Contents()) else old(Contents()) - {user}
    {
      var active := AnyAfter(windows[user], cutoff);
      if !active {
        windows := windows - {user};
      }
    }
  }

  /** The entries still to be visited, and of the others the active ones. */
  ghost function Surviving(before: View, todo: set<string>, cutoff: int): View {
    map user | user in before && (user in todo || Active(before[user], cutoff)) :: before[user]
  }

  lemma SurvivingEnds(before: View, cutoff: int)
    ensures Surviving(before, before.Keys, cutoff) == before
    ensures Surviving(before, {}, cutoff) == CleanupSpec(before, cutoff)
  {
  }

  lemma SurvivingStep(before: View, todo: set<string>, user: string, cutoff: int)
    requires user in todo && todo <= before.Keys
    ensures var now := Surviving(before, todo, cutoff);
            && user in now && now[user] == before[user]
            && Surviving(before, todo - {user}, cutoff) == if Active(now[user], cutoff) then now else now - {user}
  {
  }
}
