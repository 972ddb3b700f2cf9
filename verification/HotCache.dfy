/** What a hot-cache entry may answer: an entry is the flat answer for the two minutes
    before some refresh, taken from the prefix of the log stored by then. */
module HotCache {
  import opened Trades
  import opened TimeIndex

  const HOT_NANOS: int := 120 * NANOS_PER_SECOND

  /** When an entry was collected, and how much of the log existed then. */
  datatype Refresh = Refresh(prefix: nat, at: int64)

  predicate Sensible(r: Refresh) {
    r.at - HOT_NANOS > NANO_THRESHOLD
  }

  function HotStart(r: Refresh): int64
    requires Sensible(r)
  {
    r.at - HOT_NANOS
  }

  /** The trades the refresh collected for `exchange`. */
  function Entry(log: Log, exchange: string, r: Refresh): seq<TradeEvent>
    requires r.prefix <= |log| && Sensible(r)
  {
    FlatAnswer(log[..r.prefix], exchange, HotStart(r), r.at)
  }

  /** The entry's answer to a query. */
  function HotAnswer(entry: seq<TradeEvent>, startNano: int64, endNano: int64): seq<TradeEvent> {
    Filter(entry, (t: TradeEvent) => InRange(t, Millis(startNano), Millis(endNano)))
  }

  /** No matching trade lies outside the entry's window or was stored after its refresh. */
  predicate Covered(log: Log, exchange: string, r: Refresh, startNano: int64, endNano: int64)
    requires Sensible(r)
  {
    forall i :: 0 <= i < |log| && Matches(log[i], exchange, Millis(startNano), Millis(endNano)) ==>
      i < r.prefix && InRange(log[i].trade, Millis(HotStart(r)), Millis(r.at))
  }

  /** A write that both the entry's window and the query accept. */
  predicate Hit(w: WriteRequest, exchange: string, r: Refresh, startNano: int64, endNano: int64)
    requires Sensible(r)
  {
    Matches(w, exchange, Millis(HotStart(r)), Millis(r.at)) && InRange(w.trade, Millis(startNano), Millis(endNano))
  }

  lemma {:induction false} FilterOfBySecond(log: Log, p: WriteRequest -> bool, q: TradeEvent -> bool, from: int, n: nat)
    ensures Filter(BySecond(log, p, from, n), q) == BySecond(log, (r: WriteRequest) => p(r) && q(r.trade), from, n)
  {
    if n > 0 {
      FilterOfBySecond(log, p, q, from, n - 1);
      FilterConcat(BySecond(log, p, from, n - 1), InSecond(log, p, from + n - 1), q);
      var inSecond := (r: WriteRequest) => p(r) && Second(r.trade.timestamp) == from + n - 1;
      var filtered := (r: WriteRequest) => p(r) && q(r.trade);
      FilterOfSelect(log, inSecond, q);
      SelectCongruence(log, (r: WriteRequest) => inSecond(r) && q(r.trade),
                       (r: WriteRequest) => filtered(r) && Second(r.trade.timestamp) == from + n - 1);
    }
  }

  lemma {:induction false} BySecondSubsequence(log: Log, prefix: nat, p: WriteRequest -> bool, q: WriteRequest -> bool,
                                               from: int, n: nat)
    requires prefix <= |log|
    requires forall r :: r in log && p(r) ==> q(r)
    ensures Subsequence(BySecond(log[..prefix], p, from, n), BySecond(log, q, from, n))
  {
    if n > 0 {
      BySecondSubsequence(log, prefix, p, q, from, n - 1);
      SelectSubsequence(log, prefix, (r: WriteRequest) => p(r) && Second(r.trade.timestamp) == from + n - 1,
                        (r: WriteRequest) => q(r) && Second(r.trade.timestamp) == from + n - 1);
      SubsequenceConcat(BySecond(log[..prefix], p, from, n - 1), BySecond(log, q, from, n - 1),
                        InSecond(log[..prefix], p, from + n - 1), InSecond(log, q, from + n - 1));
    }
  }

  lemma {:induction false} BySecondSame(log: Log, prefix: nat, p: WriteRequest -> bool, q: WriteRequest -> bool,
                                        from: int, n: nat)
    requires prefix <= |log|
    requires forall i :: 0 <= i < |log| ==> q(log[i]) == (i < prefix && p(log[i]))
    ensures BySecond(log[..prefix], p, from, n) == BySecond(log, q, from, n)
  {
    if n > 0 {
      BySecondSame(log, prefix, p, q, from, n - 1);
      var p' := (r: WriteRequest) => p(r) && Second(r.trade.timestamp) == from + n - 1;
      var q' := (r: WriteRequest) => q(r) && Second(r.trade.timestamp) == from + n - 1;
      assert log == log[..prefix] + log[prefix..];
      SelectConcat(log[..prefix], log[prefix..], q');
      SelectNone(log[prefix..], q');
      SelectCongruence(log[..prefix], p', q');
    }
  }

  /** Selecting with a stronger test, or from a shorter log, loses trades unless it loses none. */
  lemma {:induction false} SelectShorter(log: Log, n: nat, p: WriteRequest -> bool, q: WriteRequest -> bool)
    requires n <= |log|
    requires forall r :: r in log && p(r) ==> q(r)
    ensures |Select(log[..n], p)| <= |Select(log, q)|
    ensures (exists i :: 0 <= i < |log| && q(log[i]) && !(i < n && p(log[i])))
            ==> |Select(log[..n], p)| < |Select(log, q)|
  {
    if log != [] {
      var init := log[..|log| - 1];
      if n == |log| {
        assert log[..n] == log && init[..n - 1] == init;
        SelectShorter(init, n - 1, p, q);
      } else {
        assert log[..n] == init[..n];
        SelectShorter(init, n, p, q);
      }
    }
  }

  /** The entry's answer and the log's answer as two selections over one range of seconds. */
  lemma BothOverOneRange(log: Log, exchange: string, r: Refresh, startNano: int64, endNano: int64)
    returns (from: int, n: nat)
    requires r.prefix <= |log| && Sensible(r)
    requires startNano > NANO_THRESHOLD && endNano > NANO_THRESHOLD
    ensures HotAnswer(Entry(log, exchange, r), startNano, endNano)
            == BySecond(log[..r.prefix], (w: WriteRequest) => Hit(w, exchange, r, startNano, endNano), from, n)
    ensures FlatAnswer(log, exchange, startNano, endNano)
            == BySecond(log, Matching(exchange, Millis(startNano), Millis(endNano)), from, n)
    ensures forall w :: w in log && Matches(w, exchange, Millis(startNano), Millis(endNano)) ==> Within(w, from, n)
  {
    var hot, hit := Matching(exchange, Millis(HotStart(r)), Millis(r.at)),
                    (w: WriteRequest) => Hit(w, exchange, r, startNano, endNano);
    var all := Matching(exchange, Millis(startNano), Millis(endNano));
    var inRange := (t: TradeEvent) => InRange(t, Millis(startNano), Millis(endNano));
    var hotFrom, hotN := Second(HotStart(r)), Span(HotStart(r), r.at) + 1;
    var allFrom, allN := Second(startNano), if Span(startNano, endNano) < 0 then 0 else Span(startNano, endNano) + 1;
    from := if hotFrom <= allFrom then hotFrom else allFrom;
    n := (if hotFrom + hotN >= allFrom + allN then hotFrom + hotN else allFrom + allN) - from;
    assert Entry(log, exchange, r) == BySecond(log[..r.prefix], hot, hotFrom, hotN);
    FilterOfBySecond(log[..r.prefix], hot, inRange, hotFrom, hotN);
    var filtered := (w: WriteRequest) => hot(w) && inRange(w.trade);
    forall w | w in log ensures filtered(w) == hit(w) && (hit(w) ==> Within(w, hotFrom, hotN))
    {
      if hit(w) { SecondOfMillis(w.trade.timestamp, HotStart(r), r.at); }
    }
    BySecondCongruence(log[..r.prefix], filtered, hit, hotFrom, hotN);
    BySecondWiden(log[..r.prefix], hit, hotFrom, hotN, from, n);
    forall w | w in log && all(w) ensures Within(w, allFrom, allN) {
      SecondOfMillis(w.trade.timestamp, startNano, endNano);
    }
    BySecondWiden(log, all, allFrom, allN, from, n);
  }

  lemma {:induction false} BySecondCongruence(log: Log, p: WriteRequest -> bool, q: WriteRequest -> bool, from: int, n: nat)
    requires forall r :: r in log ==> p(r) == q(r)
    ensures BySecond(log, p, from, n) == BySecond(log, q, from, n)
  {
    if n > 0 {
      BySecondCongruence(log, p, q, from, n - 1);
      SelectCongruence(log, (r: WriteRequest) => p(r) && Second(r.trade.timestamp) == from + n - 1,
                       (r: WriteRequest) => q(r) && Second(r.trade.timestamp) == from + n - 1);
    }
  }

  /** A hot answer never invents, repeats or reorders trades of the log. */
  lemma HotIsSound(log: Log, exchange: string, r: Refresh, startNano: int64, endNano: int64)
    requires r.prefix <= |log| && Sensible(r)
    requires startNano > NANO_THRESHOLD && endNano > NANO_THRESHOLD
    ensures Subsequence(HotAnswer(Entry(log, exchange, r), startNano, endNano),
                        FlatAnswer(log, exchange, startNano, endNano))
  {
    var from, n := BothOverOneRange(log, exchange, r, startNano, endNano);
    BySecondSubsequence(log, r.prefix, (w: WriteRequest) => Hit(w, exchange, r, startNano, endNano),
                        Matching(exchange, Millis(startNano), Millis(endNano)), from, n);
  }

  /** A hot answer is the whole answer exactly when the refresh covered the query. */
  lemma HotIsCompleteIffCovered(log: Log, exchange: string, r: Refresh, startNano: int64, endNano: int64)
    requires r.prefix <= |log| && Sensible(r)
    requires startNano > NANO_THRESHOLD && endNano > NANO_THRESHOLD
    ensures HotAnswer(Entry(log, exchange, r), startNano, endNano) == FlatAnswer(log, exchange, startNano, endNano)
            <==> Covered(log, exchange, r, startNano, endNano)
  {
    var hit := (w: WriteRequest) => Hit(w, exchange, r, startNano, endNano);
    var all := Matching(exchange, Millis(startNano), Millis(endNano));
    var from, n := BothOverOneRange(log, exchange, r, startNano, endNano);
    if Covered(log, exchange, r, startNano, endNano) {
      BySecondSame(log, r.prefix, hit, all, from, n);
    } else {
      SelectShorter(log, r.prefix, hit, all);
      assert exists i :: 0 <= i < |log| && all(log[i]) && !(i < r.prefix && hit(log[i]));
      BySecondLength(log[..r.prefix], hit, from, n);
      BySecondLength(log, all, from, n);
    }
  }

  lemma BySecondLength(log: Log, p: WriteRequest -> bool, from: int, n: nat)
    requires forall r :: r in log && p(r) ==> Within(r, from, n)
    ensures |BySecond(log, p, from, n)| == |Select(log, p)|
  {
    BySecondIsPermutation(log, p, from, n);
    SelectCongruence(log, p, (r: WriteRequest) => p(r) && Within(r, from, n));
    assert |multiset(BySecond(log, p, from, n))| == |BySecond(log, p, from, n)|;
    assert |multiset(Select(log, p))| == |Select(log, p)|;
  }

  /** Nothing the query wants was stored after the first `prefix` writes. */
  predicate NoLaterMatch(log: Log, prefix: nat, exchange: string, startNano: int64, endNano: int64) {
    forall i :: prefix <= i < |log| ==> !Matches(log[i], exchange, Millis(startNano), Millis(endNano))
  }

  /** Every log without later matches is answered in full by an entry refreshed at `at`. */
  ghost predicate AnswersInFull(exchange: string, at: int64, startNano: int64, endNano: int64)
    requires Sensible(Refresh(0, at))
  {
    forall log: Log, prefix: nat :: prefix <= |log| && NoLaterMatch(log, prefix, exchange, startNano, endNano) ==>
      HotAnswer(Entry(log, exchange, Refresh(prefix, at)), startNano, endNano) == FlatAnswer(log, exchange, startNano, endNano)
  }

  /** What a caller can check before asking: the range is empty or inside the refresh window. */
  predicate InsideWindow(at: int64, startNano: int64, endNano: int64)
    requires Sensible(Refresh(0, at))
  {
    || Millis(endNano) < Millis(startNano)
    || (Millis(HotStart(Refresh(0, at))) <= Millis(startNano) && Millis(endNano) <= Millis(at))
  }

  /** Without later writes in the range, an entry answers a query in full, whatever the log, exactly
      when the range is empty or lies inside the window of its refresh. */
  lemma CompleteIffInsideWindow(exchange: string, at: int64, startNano: int64, endNano: int64)
    requires Sensible(Refresh(0, at)) && startNano > NANO_THRESHOLD && endNano > NANO_THRESHOLD
    ensures AnswersInFull(exchange, at, startNano, endNano) <==> InsideWindow(at, startNano, endNano)
  {
    if InsideWindow(at, startNano, endNano) {
      forall log: Log, prefix: nat | prefix <= |log| && NoLaterMatch(log, prefix, exchange, startNano, endNano)
        ensures HotAnswer(Entry(log, exchange, Refresh(prefix, at)), startNano, endNano)
             == FlatAnswer(log, exchange, startNano, endNano)
      {
        HotIsCompleteIffCovered(log, exchange, Refresh(prefix, at), startNano, endNano);
      }
    } else {
      var outside: int64 := if Millis(startNano) < Millis(HotStart(Refresh(0, at))) then Millis(startNano) else Millis(endNano);
      var log := [WriteRequest(exchange, TradeAt(outside))];
      HotIsCompleteIffCovered(log, exchange, Refresh(1, at), startNano, endNano);
      hide HotAnswer, Entry, FlatAnswer;
      assert Matches(log[0], exchange, Millis(startNano), Millis(endNano));
      assert !Covered(log, exchange, Refresh(1, at), startNano, endNano);
      assert NoLaterMatch(log, 1, exchange, startNano, endNano);
    }
  }
}
