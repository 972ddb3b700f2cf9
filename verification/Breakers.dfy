/** What both circuit breakers promise, as a function of the calls made on them. */
module BreakerHistory {
  /** A call on a breaker and the clock reading it saw. */
  datatype Call = Ask(at: int) | Success(at: int) | Failure(at: int)

  predicate Monotone(h: seq<Call>) {
    forall i, j :: 0 <= i < j < |h| ==> h[i].at <= h[j].at
  }

  /** Failures recorded after the last success. */
  function FailuresSince(h: seq<Call>): nat {
    if h == [] then 0
    else match h[|h| - 1]
      case Ask(_) => FailuresSince(h[..|h| - 1])
      case Success(_) => 0
      case Failure(_) => FailuresSince(h[..|h| - 1]) + 1
  }

  /** When the last failure was recorded; zero before the first. */
  function LastFailure(h: seq<Call>): int {
    if h == [] then 0
    else if h[|h| - 1].Failure? then h[|h| - 1].at
    else LastFailure(h[..|h| - 1])
  }

  predicate Tripped(threshold: int, h: seq<Call>) {
    FailuresSince(h) >= 1 && FailuresSince(h) >= threshold
  }

  /** Execution is refused: enough failures in a row, the latest no older than the timeout. */
  predicate Refuses(threshold: int, timeout: int, h: seq<Call>, now: int) {
    Tripped(threshold, h) && now - LastFailure(h) <= timeout
  }

  predicate NotBefore(h: seq<Call>, now: int) {
    h != [] ==> h[|h| - 1].at <= now
  }

  lemma Extend(h: seq<Call>, c: Call)
    requires Monotone(h) && NotBefore(h, c.at)
    ensures Monotone(h + [c])
    ensures FailuresSince(h + [c]) == match c case Ask(_) => FailuresSince(h) case Success(_) => 0 case Failure(_) => FailuresSince(h) + 1
    ensures LastFailure(h + [c]) == if c.Failure? then c.at else LastFailure(h)
  {
    assert (h + [c])[..|h + [c]| - 1] == h;
  }

  function CountFailures(h: seq<Call>): nat {
    if h == [] then 0 else (if h[0].Failure? then 1 else 0) + CountFailures(h[1..])
  }

  predicate NoSuccess(h: seq<Call>) {
    forall i :: 0 <= i < |h| ==> !h[i].Success?
  }

  lemma {:induction false} CountSnoc(h: seq<Call>, c: Call)
    ensures CountFailures(h + [c]) == CountFailures(h) + if c.Failure? then 1 else 0
  {
    if h != [] {
      assert (h + [c])[1..] == h[1..] + [c];
      CountSnoc(h[1..], c);
    }
  }

  /** The failure count is the number of failures in the part of the history after the last success. */
  lemma {:induction false} FailuresSinceIsCount(before: seq<Call>, after: seq<Call>)
    requires before == [] || before[|before| - 1].Success?
    requires NoSuccess(after)
    ensures FailuresSince(before + after) == CountFailures(after)
  {
    if after == [] {
      assert before + after == before;
    } else {
      var n := |after| - 1;
      assert after == after[..n] + [after[n]];
      assert before + after == (before + after[..n]) + [after[n]];
      assert (before + after)[..|before + after| - 1] == before + after[..n];
      FailuresSinceIsCount(before, after[..n]);
      CountSnoc(after[..n], after[n]);
    }
  }

  predicate OnlyAsks(h: seq<Call>) {
    forall i :: 0 <= i < |h| ==> h[i].Ask?
  }

  /** Asking never changes what is refused: a half-open breaker is no different from one whose timeout ran out. */
  lemma {:induction false} AsksDoNotMatter(threshold: int, timeout: int, h: seq<Call>, asks: seq<Call>, now: int)
    requires OnlyAsks(asks)
    ensures Refuses(threshold, timeout, h + asks, now) == Refuses(threshold, timeout, h, now)
  {
    if asks == [] {
      assert h + asks == h;
    } else {
      var n := |asks| - 1;
      assert (h + asks)[..|h + asks| - 1] == h + asks[..n];
      AsksDoNotMatter(threshold, timeout, h, asks[..n], now);
    }
  }

  /** After a failure at t that reaches the threshold, whatever is asked meanwhile, execution is refused
      exactly until t + timeout; one success admits everything again. */
  lemma RefusalWindow(threshold: int, timeout: int, h: seq<Call>, t: int, asks: seq<Call>, now: int)
    requires FailuresSince(h) + 1 >= threshold && OnlyAsks(asks)
    ensures Refuses(threshold, timeout, h + [Failure(t)] + asks, now) <==> now <= t + timeout
    ensures !Refuses(threshold, timeout, h + [Success(t)] + asks, now)
  {
    AsksDoNotMatter(threshold, timeout, h + [Failure(t)], asks, now);
    AsksDoNotMatter(threshold, timeout, h + [Success(t)], asks, now);
    assert (h + [Failure(t)])[..|h|] == h && (h + [Success(t)])[..|h|] == h;
  }

  /** The failures of a caller whose every admitted call fails at once. */
  function Failed(times: seq<int>): seq<Call> {
    seq(|times|, i requires 0 <= i < |times| => Failure(times[i]))
  }

  /** Which calls at the given times reach a dependency that always fails. */
  function Attempts(threshold: int, timeout: int, asks: seq<int>): (r: seq<int>)
    ensures |r| <= |asks|
  {
    if asks == [] then []
    else
      var before := Attempts(threshold, timeout, asks[..|asks| - 1]);
      var now := asks[|asks| - 1];
      if Refuses(threshold, timeout, Failed(before), now) then before else before + [now]
  }

  lemma {:induction false} FailedHistory(times: seq<int>)
    ensures FailuresSince(Failed(times)) == |times|
    ensures times != [] ==> LastFailure(Failed(times)) == times[|times| - 1]
  {
    if times != [] {
      assert Failed(times)[..|times| - 1] == Failed(times[..|times| - 1]);
      FailedHistory(times[..|times| - 1]);
    }
  }

  /** Past the threshold, attempts on a failing dependency are more than a timeout apart. */
  lemma {:induction false} AttemptsAreSpaced(threshold: int, timeout: int, asks: seq<int>, k: nat)
    requires 1 <= k < |Attempts(threshold, timeout, asks)| && k >= threshold
    ensures Attempts(threshold, timeout, asks)[k] - Attempts(threshold, timeout, asks)[k - 1] > timeout
  {
    var before := Attempts(threshold, timeout, asks[..|asks| - 1]);
    if k < |before| {
      AttemptsAreSpaced(threshold, timeout, asks[..|asks| - 1], k);
    } else {
      FailedHistory(before);
    }
  }

  /** The first threshold calls all reach the dependency. */
  lemma {:induction false} FirstCallsAreAdmitted(threshold: int, timeout: int, asks: seq<int>)
    requires threshold >= 1
    ensures |asks| <= threshold ==> Attempts(threshold, timeout, asks) == asks
    ensures |asks| > threshold ==> asks[..threshold] <= Attempts(threshold, timeout, asks)
  {
    if asks != [] {
      var before := asks[..|asks| - 1];
      FirstCallsAreAdmitted(threshold, timeout, before);
      FailedHistory(Attempts(threshold, timeout, before));
      assert before + [asks[|asks| - 1]] == asks;
      if |asks| > threshold {
        assert before[..threshold] == asks[..threshold];
      }
    }
  }

  /** A dependency that keeps failing is called for each of the first threshold calls, then at most once
      per timeout. */
  lemma {:induction false} FailingDependencyIsSpared(threshold: int, timeout: int, asks: seq<int>, n: nat)
    requires threshold >= 1 && timeout >= 0
    requires threshold <= n < |Attempts(threshold, timeout, asks)|
    ensures var a := Attempts(threshold, timeout, asks);
            && asks[..threshold] <= a
            && a[n] - a[threshold - 1] >= (n - threshold + 1) * (timeout + 1)
    decreases n
  {
    FirstCallsAreAdmitted(threshold, timeout, asks);
    AttemptsAreSpaced(threshold, timeout, asks, n);
    if n > threshold {
      FailingDependencyIsSpared(threshold, timeout, asks, n - 1);
    }
  }
}

/** The breaker of the database writer: numbered states, 0 closed, 1 open, 2 half-open. */
module QuestDBBreaker {
  import opened BreakerHistory

  class CircuitBreaker {
    var failureCount: int
    var lastFailureTime: int
    var state: int
    const threshold: int
    const timeout: int
    ghost var history: seq<Call>

    ghost predicate Valid()
      reads this
    {
      && Monotone(history)
      && failureCount == FailuresSince(history)
      && (failureCount >= 1 ==> lastFailureTime == LastFailure(history))
      && 0 <= state <= 2
      && (state != 0 <==> Tripped(threshold, history))
      && (state == 2 ==> history != [] && history[|history| - 1].at - lastFailureTime > timeout)
    }

    constructor (threshold: int, timeout: int)
      ensures Valid() && history == [] && this.threshold == threshold && this.timeout == timeout
    {
      this.threshold, this.timeout := threshold, timeout;
      failureCount, lastFailureTime, state := 0, 0, 0;
      history := [];
    }

    method CanExecute(now: int) returns (ok: bool)
      requires Valid() && NotBefore(history, now)
      modifies this
      ensures Valid() && history == old(history) + [Ask(now)]
      ensures ok <==> !Refuses(threshold, timeout, old(history), now)
    {
      Extend(history, Ask(now));
      history := history + [Ask(now)];
      if state == 1 {
        if now - lastFailureTime > timeout {
          state := 2;
          return true;
        }
        return false;
      }
      return true;
    }

    method RecordSuccess(ghost now: int)
      requires Valid() && NotBefore(history, now)
      modifies this
      ensures Valid() && history == old(history) + [Success(now)]
    {
      Extend(history, Success(now));
      history := history + [Success(now)];
      failureCount := 0;
      state := 0;
    }

    method RecordFailure(now: int)
      requires Valid() && NotBefore(history, now)
      modifies this
      ensures Valid() && history == old(history) + [Failure(now)]
    {
      Extend(history, Failure(now));
      history := history + [Failure(now)];
      lastFailureTime := now;
      failureCount := failureCount + 1;
      if failureCount >= threshold {
        state := 1;
      }
    }
  }
}

/** The breaker of the WebSocket managers: named states. */
module WebSocketBreaker {
  import opened BreakerHistory

  class CircuitBreaker {
    var failureCount: int
    var lastFailureTime: int
    var state: string
    const maxFailures: int
    const timeout: int
    ghost var history: seq<Call>

    ghost predicate Valid()
      reads this
    {
      && Monotone(history)
      && failureCount == FailuresSince(history)
      && (failureCount >= 1 ==> lastFailureTime == LastFailure(history))
      && (state == "closed" || state == "open" || state == "half-open")
      && (state != "closed" <==> Tripped(maxFailures, history))
      && (state == "half-open" ==> history != [] && history[|history| - 1].at - lastFailureTime > timeout)
    }

    constructor (maxFailures: int, timeout: int)
      ensures Valid() && history == [] && this.maxFailures == maxFailures && this.timeout == timeout
    {
      this.maxFailures, this.timeout := maxFailures, timeout;
      failureCount, lastFailureTime, state := 0, 0, "closed";
      history := [];
    }

    method CanExecute(now: int) returns (ok: bool)
      requires Valid() && NotBefore(history, now)
      modifies this
      ensures Valid() && history == old(history) + [Ask(now)]
      ensures ok <==> !Refuses(maxFailures, timeout, old(history), now)
    {
      Extend(history, Ask(now));
      history := history + [Ask(now)];
      if state == "closed" {
        return true;
      } else if state == "open" {
        if now - lastFailureTime > timeout {
          state := "half-open";
          return true;
        }
        return false;
      } else {
        return true;
      }
    }

    method OnSuccess(ghost now: int)
      requires Valid() && NotBefore(history, now)
      modifies this
      ensures Valid() && history == old(history) + [Success(now)]
    {
      Extend(history, Success(now));
      history := history + [Success(now)];
      failureCount := 0;
      state := "closed";
    }

    method OnFailure(now: int)
      requires Valid() && NotBefore(history, now)
      modifies this
      ensures Valid() && history == old(history) + [Failure(now)]
    {
      Extend(history, Failure(now));
      history := history + [Failure(now)];
      failureCount := failureCount + 1;
      lastFailureTime := now;
      if failureCount >= maxFailures {
        state := "open";
      }
    }
  }
}
