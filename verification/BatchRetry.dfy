/** Inserting one batch: retries with cancellation, guarded by the circuit breaker the workers share. */
module BatchRetry {
  import opened BreakerHistory
  import opened QuestDBBreaker

  /** How one insert ends, after the error has been classified. */
  datatype Answer = Stored | FatalError | TemporaryError

  datatype Outcome = Inserted | Refused | Fatal | Cancelled | Exhausted

  /** What the database and the context do at each attempt. */
  datatype World = World(answer: nat -> Answer, cancelledWhileWaiting: nat -> bool)

  /** The attempt ends the loop. */
  predicate Ends(w: World, maxRetries: int, attempt: nat) {
    || w.answer(attempt) != TemporaryError
    || (attempt < maxRetries && w.cancelledWhileWaiting(attempt))
  }

  /** How an admitted batch ends if its last insert was the n-th (n counts from 1; 0 means none was made). */
  predicate EndsAs(w: World, maxRetries: int, n: nat, r: Outcome) {
    && (forall i: nat :: i + 1 < n ==> !Ends(w, maxRetries, i))
    && match r
       case Inserted => n >= 1 && w.answer(n - 1) == Stored
       case Fatal => n >= 1 && w.answer(n - 1) == FatalError
       case Cancelled => 1 <= n <= maxRetries && w.answer(n - 1) == TemporaryError && w.cancelledWhileWaiting(n - 1)
       case Exhausted => n == (if maxRetries < 0 then 0 else maxRetries + 1)
                         && (n >= 1 ==> w.answer(n - 1) == TemporaryError)
       case Refused => false
  }

  /** What the breaker is told about the batch. */
  function Recorded(r: Outcome, now: int): seq<Call> {
    match r
    case Inserted => [Success(now)]
    case Fatal => [Failure(now)]
    case Exhausted => [Failure(now)]
    case Cancelled => []
    case Refused => []
  }

  /** Two ways an admitted batch can end are the same way: the world decides it. */
  lemma OutcomeIsUnique(w: World, maxRetries: int, n: nat, r: Outcome, m: nat, q: Outcome)
    requires EndsAs(w, maxRetries, n, r) && EndsAs(w, maxRetries, m, q)
    requires n <= AttemptLimit(maxRetries) && m <= AttemptLimit(maxRetries)
    ensures n == m && r == q
  {
    assert n >= 1 && r != Exhausted ==> Ends(w, maxRetries, n - 1);
    assert m >= 1 && q != Exhausted ==> Ends(w, maxRetries, m - 1);
  }

  function AttemptLimit(maxRetries: int): nat {
    if maxRetries < 0 then 0 else maxRetries + 1
  }

  /** Calls other workers make on the shared breaker. */
  method Play(breaker: CircuitBreaker, calls: seq<Call>)
    requires breaker.Valid() && Monotone(breaker.history + calls)
    modifies breaker
    ensures breaker.Valid() && breaker.history == old(breaker.history) + calls
  {
    for i := 0 to |calls|
      invariant breaker.Valid() && breaker.history == old(breaker.history) + calls[..i]
    {
      assert old(breaker.history) + calls[..i + 1] == (old(breaker.history) + calls[..i]) + [calls[i]];
      assert (old(breaker.history) + calls)[|breaker.history|] == calls[i];
      if breaker.history != [] {
        assert (old(breaker.history) + calls)[|breaker.history| - 1] == breaker.history[|breaker.history| - 1];
      }
      match calls[i]
      case Ask(at) => var _ := breaker.CanExecute(at);
      case Success(at) => breaker.RecordSuccess(at);
      case Failure(at) => breaker.RecordFailure(at);
    }
    assert calls[..|calls|] == calls;
  }

  /** An admitted batch makes at most maxRetries + 1 inserts and, unless cancelled, records exactly one
      outcome, whatever the other workers do to the breaker meanwhile. */
  method ProcessBatchWithRetry(breaker: CircuitBreaker, maxRetries: int, w: World, now: int,
                               meanwhile: seq<Call>, later: int)
    returns (r: Outcome, inserts: nat)
    requires breaker.Valid()
    requires Monotone(breaker.history + [Ask(now)] + meanwhile + [Ask(later)])
    modifies breaker
    ensures breaker.Valid()
    ensures r == Refused <==> Refuses(breaker.threshold, breaker.timeout, old(breaker.history), now)
    ensures r == Refused ==> inserts == 0 && breaker.history == old(breaker.history) + [Ask(now)]
    ensures r != Refused ==> EndsAs(w, maxRetries, inserts, r) && inserts <= AttemptLimit(maxRetries)
    ensures r != Refused ==> breaker.history == old(breaker.history) + [Ask(now)] + meanwhile + Recorded(r, later)
  {
    hide Ends, EndsAs, Monotone, NotBefore, Refuses, CircuitBreaker.Valid;
    SplitMonotone(breaker.history, now, meanwhile, later);
    inserts := 0;
    var ok := breaker.CanExecute(now);
    if !ok {
      return Refused, 0;
    }
    Play(breaker, meanwhile);
    var attempt := 0;
    while attempt <= maxRetries
      invariant 0 <= attempt <= AttemptLimit(maxRetries) && inserts == attempt
      invariant breaker.Valid() && breaker.history == old(breaker.history) + [Ask(now)] + meanwhile
      invariant forall i: nat :: i < attempt ==> !Ends(w, maxRetries, i)
    {
      EndsHere(w, maxRetries, attempt);
      var answer := w.answer(attempt);
      inserts := inserts + 1;
      if answer == Stored {
        breaker.RecordSuccess(later);
        return Inserted, inserts;
      } else if answer == FatalError {
        breaker.RecordFailure(later);
        return Fatal, inserts;
      } else if attempt < maxRetries && w.cancelledWhileWaiting(attempt) {
        return Cancelled, inserts;
      }
      attempt := attempt + 1;
    }
    breaker.RecordFailure(later);
    NothingEnded(w, maxRetries);
    return Exhausted, inserts;
  }

  /** What the next attempt makes of a batch that no attempt has ended. */
  lemma EndsHere(w: World, maxRetries: int, attempt: nat)
    requires attempt <= maxRetries && forall i: nat :: i < attempt ==> !Ends(w, maxRetries, i)
    ensures w.answer(attempt) == Stored ==> EndsAs(w, maxRetries, attempt + 1, Inserted)
    ensures w.answer(attempt) == FatalError ==> EndsAs(w, maxRetries, attempt + 1, Fatal)
    ensures w.answer(attempt) == TemporaryError && attempt < maxRetries && w.cancelledWhileWaiting(attempt) ==>
              EndsAs(w, maxRetries, attempt + 1, Cancelled)
    ensures w.answer(attempt) == TemporaryError && !(attempt < maxRetries && w.cancelledWhileWaiting(attempt)) ==>
              !Ends(w, maxRetries, attempt)
  {
  }

  lemma NothingEnded(w: World, maxRetries: int)
    requires forall i: nat :: i <= maxRetries ==> !Ends(w, maxRetries, i)
    ensures EndsAs(w, maxRetries, AttemptLimit(maxRetries), Exhausted)
  {
    assert maxRetries >= 0 ==> !Ends(w, maxRetries, maxRetries);
  }

  lemma SplitMonotone(h: seq<Call>, now: int, meanwhile: seq<Call>, later: int)
    requires Monotone(h + [Ask(now)] + meanwhile + [Ask(later)])
    ensures NotBefore(h, now) && Monotone(h + [Ask(now)] + meanwhile) && NotBefore(h + [Ask(now)] + meanwhile, later)
  {
    var all := h + [Ask(now)] + meanwhile + [Ask(later)];
    var most := h + [Ask(now)] + meanwhile;
    assert all[|h|] == Ask(now) && all[|most|] == Ask(later);
    if h != [] {
      assert all[|h| - 1] == h[|h| - 1];
    }
    assert all[|most| - 1] == most[|most| - 1];
    assert all[..|most|] == most;
    forall i, j | 0 <= i < j < |most| ensures most[i].at <= most[j].at {
      assert all[i] == most[i] && all[j] == most[j];
    }
  }
}
