/** The sliding-window rate limiter, against the policy that remembers every call. */
module RateLimiting {
  /** Calls arrive at these times; the policy says which are admitted. */
  predicate Monotone(calls: seq<int>) {
    forall i, j :: 0 <= i < j < |calls| ==> calls[i] <= calls[j]
  }

  /** Admitted calls in (low, high]. */
  function AdmittedIn(calls: seq<int>, policy: seq<bool>, low: int, high: int): nat
    requires |calls| == |policy|
  {
    if calls == [] then 0
    else
      var n := |calls| - 1;
      AdmittedIn(calls[..n], policy[..n], low, high) + if policy[n] && low < calls[n] <= high then 1 else 0
  }

  /** Every admitted call is among at most max in the interval ending with it. */
  predicate Obeys(max: int, interval: int, calls: seq<int>, policy: seq<bool>)
    requires |calls| == |policy|
  {
    forall i :: 0 <= i < |calls| && policy[i] ==>
      AdmittedIn(calls[..i + 1], policy[..i + 1], calls[i] - interval, calls[i]) <= max
  }

  /** Admit a call exactly when fewer than max calls were admitted in the interval before it. */
  function Greedy(max: int, interval: int, calls: seq<int>): (p: seq<bool>)
    ensures |p| == |calls|
  {
    if calls == [] then []
    else
      var n := |calls| - 1;
      var before := Greedy(max, interval, calls[..n]);
      before + [AdmittedIn(calls[..n], before, calls[n] - interval, calls[n]) < max]
  }

  lemma {:induction false} GreedyPrefix(max: int, interval: int, calls: seq<int>, k: nat)
    requires k <= |calls|
    ensures Greedy(max, interval, calls)[..k] == Greedy(max, interval, calls[..k])
  {
    if k < |calls| {
      var n := |calls| - 1;
      GreedyPrefix(max, interval, calls[..n], k);
      assert calls[..n][..k] == calls[..k];
      assert Greedy(max, interval, calls)[..k] == Greedy(max, interval, calls[..n])[..k];
    } else {
      assert calls[..k] == calls;
    }
  }

  lemma GreedyObeys(max: int, interval: int, calls: seq<int>)
    ensures Obeys(max, interval, calls, Greedy(max, interval, calls))
  {
    hide Greedy, AdmittedIn;
    var p := Greedy(max, interval, calls);
    forall i | 0 <= i < |calls| && p[i]
      ensures AdmittedIn(calls[..i + 1], p[..i + 1], calls[i] - interval, calls[i]) <= max
    {
      GreedyPrefix(max, interval, calls, i + 1);
      GreedyPrefix(max, interval, calls, i);
      assert calls[..i + 1][..i] == calls[..i] && p[..i + 1][..i] == p[..i];
      GreedyLast(max, interval, calls[..i + 1]);
      OneMoreAdmitted(calls[..i + 1], p[..i + 1], calls[i] - interval, calls[i]);
    }
  }

  lemma OneMoreAdmitted(calls: seq<int>, policy: seq<bool>, low: int, high: int)
    requires |calls| == |policy| && calls != []
    ensures var n := |calls| - 1;
            AdmittedIn(calls, policy, low, high) <= AdmittedIn(calls[..n], policy[..n], low, high) + 1
  {
  }

  lemma {:induction false} FewerInSmaller(calls: seq<int>, policy: seq<bool>, low: int, high: int, low': int, high': int)
    requires |calls| == |policy| && low' <= low
    requires forall i :: 0 <= i < |calls| && calls[i] <= high ==> calls[i] <= high'
    ensures AdmittedIn(calls, policy, low, high) <= AdmittedIn(calls, policy, low', high')
  {
    if calls != [] {
      var n := |calls| - 1;
      FewerInSmaller(calls[..n], policy[..n], low, high, low', high');
    }
  }

  /** Sliding window: a policy that obeys the limit admits at most max calls in any half-open window of
      one interval, wherever it starts. */
  lemma {:induction false} WindowBound(max: int, interval: int, calls: seq<int>, policy: seq<bool>, start: int)
    requires |calls| == |policy| && Monotone(calls) && Obeys(max, interval, calls, policy)
    ensures AdmittedIn(calls, policy, start, start + interval) <= if max < 0 then 0 else max
    decreases |calls|
  {
    if calls != [] {
      var n := |calls| - 1;
      if policy[n] && start < calls[n] <= start + interval {
        assert calls[..n + 1] == calls && policy[..n + 1] == policy;
        FewerInSmaller(calls, policy, start, start + interval, calls[n] - interval, calls[n]);
      } else {
        ObeysPrefix(max, interval, calls, policy, n);
        WindowBound(max, interval, calls[..n], policy[..n], start);
      }
    }
  }

  lemma ObeysPrefix(max: int, interval: int, calls: seq<int>, policy: seq<bool>, k: nat)
    requires |calls| == |policy| && k <= |calls| && Obeys(max, interval, calls, policy)
    ensures Obeys(max, interval, calls[..k], policy[..k])
  {
    forall i | 0 <= i < k && policy[i]
      ensures AdmittedIn(calls[..k][..i + 1], policy[..k][..i + 1], calls[i] - interval, calls[i]) <= max
    {
      assert calls[..k][..i + 1] == calls[..i + 1] && policy[..k][..i + 1] == policy[..i + 1];
    }
  }

  function Admissions(policy: seq<bool>): nat {
    if policy == [] then 0
    else Admissions(policy[..|policy| - 1]) + if policy[|policy| - 1] then 1 else 0
  }

  /** How many leading calls are no later than the cutoff. */
  function Expired(calls: seq<int>, cutoff: int): (k: nat)
    ensures k <= |calls|
    ensures forall i :: 0 <= i < k ==> calls[i] <= cutoff
    ensures k < |calls| ==> calls[k] > cutoff
  {
    if calls == [] || calls[0] > cutoff then 0 else Expired(calls[1..], cutoff) + 1
  }

  lemma {:induction false} SplitAtCutoff(calls: seq<int>, policy: seq<bool>, k: nat, low: int, high: int)
    requires |calls| == |policy| && k <= |calls|
    requires forall i :: 0 <= i < k ==> calls[i] <= low
    requires forall i :: k <= i < |calls| ==> low < calls[i] <= high
    ensures Admissions(policy) == Admissions(policy[..k]) + AdmittedIn(calls, policy, low, high)
  {
    if |calls| == k {
      assert policy[..k] == policy;
      NoneAdmitted(calls, policy, low, high);
    } else {
      var n := |calls| - 1;
      assert policy[..n][..k] == policy[..k];
      SplitAtCutoff(calls[..n], policy[..n], k, low, high);
    }
  }

  lemma {:induction false} NoneAdmitted(calls: seq<int>, policy: seq<bool>, low: int, high: int)
    requires |calls| == |policy| && forall i :: 0 <= i < |calls| ==> calls[i] <= low
    ensures AdmittedIn(calls, policy, low, high) == 0
  {
    if calls != [] {
      NoneAdmitted(calls[..|calls| - 1], policy[..|calls| - 1], low, high);
    }
  }

  lemma SplitAtExpired(calls: seq<int>, policy: seq<bool>, low: int)
    requires |calls| == |policy| && calls != [] && Monotone(calls)
    ensures Admissions(policy)
         == Admissions(policy[..Expired(calls, low)]) + AdmittedIn(calls, policy, low, calls[|calls| - 1])
  {
    var k := Expired(calls, low);
    forall i | k <= i < |calls| ensures low < calls[i] <= calls[|calls| - 1] {
      assert low < calls[k];
    }
    SplitAtCutoff(calls, policy, k, low, calls[|calls| - 1]);
  }

  lemma GreedyLast(max: int, interval: int, calls: seq<int>)
    requires calls != []
    ensures var n := |calls| - 1;
            Greedy(max, interval, calls)[n]
            <==> AdmittedIn(calls[..n], Greedy(max, interval, calls[..n]), calls[n] - interval, calls[n]) < max
  {}

  lemma RefusedMeansFull(max: int, interval: int, calls: seq<int>)
    requires calls != [] && !Greedy(max, interval, calls)[|calls| - 1]
    ensures AdmittedIn(calls, Greedy(max, interval, calls), calls[|calls| - 1] - interval, calls[|calls| - 1]) >= max
  {
    GreedyPrefix(max, interval, calls, |calls| - 1);
  }

  lemma ObeysAtLast(max: int, interval: int, calls: seq<int>, policy: seq<bool>)
    requires |calls| == |policy| && calls != [] && Obeys(max, interval, calls, policy) && policy[|calls| - 1]
    ensures AdmittedIn(calls, policy, calls[|calls| - 1] - interval, calls[|calls| - 1]) <= max
  {
    hide AdmittedIn;
    assert calls[..|calls|] == calls && policy[..|calls|] == policy;
  }

  /** At a call greedy refuses, greedy is as full as any policy may be, so being ahead at the start of the
      interval is enough. */
  lemma StaysAhead(max: int, interval: int, calls: seq<int>, policy: seq<bool>, k: nat)
    requires |calls| == |policy| && calls != [] && Monotone(calls) && Obeys(max, interval, calls, policy)
    requires k == Expired(calls, calls[|calls| - 1] - interval)
    requires policy[|calls| - 1] && !Greedy(max, interval, calls)[|calls| - 1]
    requires Admissions(policy[..k]) <= Admissions(Greedy(max, interval, calls[..k]))
    ensures Admissions(policy) <= Admissions(Greedy(max, interval, calls))
  {
    hide *;
    var low := calls[|calls| - 1] - interval;
    SplitAtExpired(calls, policy, low);
    SplitAtExpired(calls, Greedy(max, interval, calls), low);
    ObeysAtLast(max, interval, calls, policy);
    RefusedMeansFull(max, interval, calls);
    GreedyPrefix(max, interval, calls, k);
  }

  /** Refusals are only made when needed: no policy obeying the limit admits more of the same calls. */
  lemma {:induction false} GreedyIsOptimal(max: int, interval: int, calls: seq<int>, policy: seq<bool>)
    requires |calls| == |policy| && Monotone(calls) && interval > 0
    requires Obeys(max, interval, calls, policy)
    ensures Admissions(policy) <= Admissions(Greedy(max, interval, calls))
    decreases |calls|
  {
    if calls != [] {
      hide *;
      var n := |calls| - 1;
      if policy[n] && !Greedy(max, interval, calls)[n] {
        var k := ExpiredBefore(calls, interval);
        ObeysPrefix(max, interval, calls, policy, k);
        MonotonePrefix(calls, k);
        GreedyIsOptimal(max, interval, calls[..k], policy[..k]);
        StaysAhead(max, interval, calls, policy, k);
      } else {
        MonotonePrefix(calls, n);
        ObeysPrefix(max, interval, calls, policy, n);
        GreedyIsOptimal(max, interval, calls[..n], policy[..n]);
        GreedyPrefix(max, interval, calls, n);
        NotBehindStaysSo(policy, Greedy(max, interval, calls));
      }
    } else {
      assert |Greedy(max, interval, calls)| == 0;
    }
  }

  lemma NotBehindStaysSo(policy: seq<bool>, greedy: seq<bool>)
    requires |policy| == |greedy| > 0 && (policy[|policy| - 1] ==> greedy[|policy| - 1])
    requires Admissions(policy[..|policy| - 1]) <= Admissions(greedy[..|policy| - 1])
    ensures Admissions(policy) <= Admissions(greedy)
  {
  }

  lemma ExpiredBefore(calls: seq<int>, interval: int) returns (k: nat)
    requires calls != [] && interval > 0
    ensures k == Expired(calls, calls[|calls| - 1] - interval) && k < |calls|
  {
    k := Expired(calls, calls[|calls| - 1] - interval);
  }

  /** A call is refused only when exactly max calls were admitted in the interval before it. */
  lemma RefusesOnlyWhenFull(max: int, interval: int, calls: seq<int>)
    requires Monotone(calls) && calls != [] && max >= 0
    requires !Greedy(max, interval, calls)[|calls| - 1]
    ensures var n := |calls| - 1;
            AdmittedIn(calls[..n], Greedy(max, interval, calls[..n]), calls[n] - interval, calls[n]) == max
  {
    hide *;
    var n := |calls| - 1;
    GreedyLast(max, interval, calls);
    MonotonePrefix(calls, n);
    GreedyObeys(max, interval, calls[..n]);
    WindowBound(max, interval, calls[..n], Greedy(max, interval, calls[..n]), calls[n] - interval);
    assert (calls[n] - interval) + interval == calls[n];
  }

  lemma MonotonePrefix(calls: seq<int>, k: nat)
    requires Monotone(calls) && k <= |calls|
    ensures Monotone(calls[..k])
  {}

  /** The times of the admitted calls. */
  function Admitted(calls: seq<int>, policy: seq<bool>): seq<int>
    requires |calls| == |policy|
  {
    if calls == [] then []
    else
      var n := |calls| - 1;
      Admitted(calls[..n], policy[..n]) + if policy[n] then [calls[n]] else []
  }

  /** The times after the cutoff. */
  function Recent(times: seq<int>, cutoff: int): seq<int> {
    if times == [] then []
    else Recent(times[..|times| - 1], cutoff)
         + if times[|times| - 1] > cutoff then [times[|times| - 1]] else []
  }

  lemma RecentSnoc(times: seq<int>, t: int, cutoff: int)
    ensures Recent(times + [t], cutoff) == Recent(times, cutoff) + if t > cutoff then [t] else []
  {
    assert (times + [t])[..|times|] == times;
  }

  lemma {:induction false} RecentOfRecent(times: seq<int>, cutoff: int, later: int)
    requires cutoff <= later
    ensures Recent(Recent(times, cutoff), later) == Recent(times, later)
  {
    if times != [] {
      var n := |times| - 1;
      var before := Recent(times[..n], cutoff);
      RecentOfRecent(times[..n], cutoff, later);
      if times[n] > cutoff {
        RecentSnoc(before, times[n], later);
      } else {
        assert before + [] == before;
        assert Recent(times[..n], later) + [] == Recent(times[..n], later);
      }
    }
  }

  lemma {:induction false} RecentAdmitted(calls: seq<int>, policy: seq<bool>, cutoff: int, now: int)
    requires |calls| == |policy| && forall i :: 0 <= i < |calls| ==> calls[i] <= now
    ensures |Recent(Admitted(calls, policy), cutoff)| == AdmittedIn(calls, policy, cutoff, now)
  {
    if calls != [] {
      var n := |calls| - 1;
      RecentAdmitted(calls[..n], policy[..n], cutoff, now);
      RecentSnoc(Admitted(calls[..n], policy[..n]), calls[n], cutoff);
      assert Admitted(calls[..n], policy[..n]) + [] == Admitted(calls[..n], policy[..n]);
    }
  }

  /** `kept` and `history` agree on everything after any cutoff from `from` on. */
  ghost predicate Tells(kept: seq<int>, history: seq<int>, from: int) {
    forall cutoff :: cutoff >= from ==> Recent(kept, cutoff) == Recent(history, cutoff)
  }

  lemma KeptTells(kept: seq<int>, history: seq<int>, from: int)
    requires Tells(kept, history, from)
    ensures Tells(Recent(kept, from), history, from) && Recent(kept, from) == Recent(history, from)
  {
    hide Recent;
    forall cutoff | cutoff >= from ensures Recent(Recent(kept, from), cutoff) == Recent(history, cutoff) {
      RecentOfRecent(kept, from, cutoff);
    }
  }

  lemma OneMoreTells(kept: seq<int>, history: seq<int>, now: int, from: int)
    requires Tells(kept, history, from)
    ensures Tells(kept + [now], history + [now], from)
  {
    hide Recent;
    forall cutoff | cutoff >= from ensures Recent(kept + [now], cutoff) == Recent(history + [now], cutoff) {
      RecentSnoc(kept, now, cutoff);
      RecentSnoc(history, now, cutoff);
    }
  }

  lemma StillTells(kept: seq<int>, calls: seq<int>, policy: seq<bool>, interval: int, now: int)
    requires |calls| == |policy| && Monotone(calls) && (calls == [] ==> kept == [])
    requires calls != [] ==> calls[|calls| - 1] <= now && Tells(kept, Admitted(calls, policy), calls[|calls| - 1] - interval)
    ensures Tells(kept, Admitted(calls, policy), now - interval)
    ensures forall i :: 0 <= i < |calls| ==> calls[i] <= now
  {
    hide Recent;
  }

  lemma OneMoreCall(max: int, interval: int, calls: seq<int>, now: int)
    requires Monotone(calls) && (calls != [] ==> calls[|calls| - 1] <= now)
    ensures Monotone(calls + [now])
    ensures var policy, after := Greedy(max, interval, calls), Greedy(max, interval, calls + [now]);
            && after[|calls|] == (AdmittedIn(calls, policy, now - interval, now) < max)
            && Admitted(calls + [now], after) == if after[|calls|] then Admitted(calls, policy) + [now] else Admitted(calls, policy)
  {
    hide AdmittedIn;
    var after := Greedy(max, interval, calls + [now]);
    assert (calls + [now])[..|calls|] == calls && after[..|calls|] == Greedy(max, interval, calls);
    assert Admitted(calls, Greedy(max, interval, calls)) + [] == Admitted(calls, Greedy(max, interval, calls));
  }

  class RateLimiter {
    const maxRequests: int
    const interval: int
    var requests: seq<int>
    ghost var calls: seq<int>

    ghost function History(): seq<int>
      reads this
    {
      Admitted(calls, Greedy(maxRequests, interval, calls))
    }

    /** The list kept tells what the whole history tells about any cutoff still to come. */
    ghost predicate Valid()
      reads this
    {
      && Monotone(calls)
      && (calls == [] ==> requests == [])
      && (calls != [] ==> Tells(requests, History(), calls[|calls| - 1] - interval))
    }

    constructor (maxRequests: int, interval: int)
      ensures Valid() && calls == [] && this.maxRequests == maxRequests && this.interval == interval
    {
      this.maxRequests, this.interval := maxRequests, interval;
      requests, calls := [], [];
    }

    method KeepRecent(cutoff: int)
      modifies this`requests
      ensures requests == Recent(old(requests), cutoff)
    {
      var validRequests := [];
      for i := 0 to |requests|
        invariant requests == old(requests) && validRequests == Recent(requests[..i], cutoff)
      {
        RecentSnoc(requests[..i], requests[i], cutoff);
        assert requests[..i + 1] == requests[..i] + [requests[i]];
        if requests[i] > cutoff {
          validRequests := validRequests + [requests[i]];
        }
      }
      assert requests[..|requests|] == requests;
      requests := validRequests;
    }

    /** Although expired entries are forgotten, the answer is the one the full history gives. */
    method Allow(now: int) returns (ok: bool)
      requires Valid() && (calls != [] ==> calls[|calls| - 1] <= now)
      modifies this
      ensures Valid() && calls == old(calls) + [now]
      ensures ok <==> Greedy(maxRequests, interval, calls)[|calls| - 1]
    {
      hide AdmittedIn, Recent, Greedy, Tells, Monotone;
      var cutoff := now - interval;
      ghost var before, policy := History(), Greedy(maxRequests, interval, calls);
      StillTells(requests, calls, policy, interval, now);
      KeptTells(requests, before, cutoff);
      KeepRecent(cutoff);
      RecentAdmitted(calls, policy, cutoff, now);
      OneMoreCall(maxRequests, interval, calls, now);
      OneMoreTells(requests, before, now, cutoff);
      ok := |requests| < maxRequests;
      calls := calls + [now];
      if ok {
        requests := requests + [now];
      }
    }
  }
}
