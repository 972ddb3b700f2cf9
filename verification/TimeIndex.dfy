/** The 1200-bucket time index as mathematics: which bucket a stamp maps to, what a
    bucket walk over a flat log of writes returns, and when that equals the log itself. */
module TimeIndex {
  import opened Trades

  const BUCKET_COUNT: int := 1200
  const NANO_THRESHOLD: int := 1_000_000_000_000_000
  const NANOS_PER_SECOND: int := 1_000_000_000

  datatype WriteRequest = WriteRequest(exchange: string, trade: TradeEvent)

  type Log = seq<WriteRequest>

  /** The second a stamp denotes, after the guess whether it is in ms or ns. */
  function Second(timestamp: int): int {
    if timestamp > NANO_THRESHOLD then GoDiv(timestamp, NANOS_PER_SECOND) else GoDiv(timestamp, 1000)
  }

  function GetBucketIndex(timestamp: int): (b: int)
    ensures 0 <= b < BUCKET_COUNT
    ensures b == Second(timestamp) % BUCKET_COUNT
  {
    var bucketIndex := GoMod(Second(timestamp), BUCKET_COUNT);
    if bucketIndex < 0 then bucketIndex + BUCKET_COUNT else bucketIndex
  }

  /** The trades of the writes that satisfy `p`, in insertion order. */
  function Select(log: Log, p: WriteRequest -> bool): seq<TradeEvent> {
    if log == [] then []
    else Select(log[..|log| - 1], p) + (if p(log[|log| - 1]) then [log[|log| - 1].trade] else [])
  }

  predicate Matches(r: WriteRequest, exchange: string, lo: int, hi: int) {
    r.exchange == exchange && InRange(r.trade, lo, hi)
  }

  function Matching(exchange: string, lo: int, hi: int): WriteRequest -> bool {
    (r: WriteRequest) => Matches(r, exchange, lo, hi)
  }

  function BucketContent(log: Log, exchange: string, bucket: int): seq<TradeEvent> {
    Select(log, (r: WriteRequest) => r.exchange == exchange && GetBucketIndex(r.trade.timestamp) == bucket)
  }

  /** The matching trades of the bucket `k` places after `bucket`, in circular order. */
  function BucketTerm(log: Log, exchange: string, bucket: int, k: nat, lo: int, hi: int): seq<TradeEvent> {
    Filter(BucketContent(log, exchange, (bucket + k) % BUCKET_COUNT), (t: TradeEvent) => InRange(t, lo, hi))
  }

  /** What `n` buckets starting at `bucket` contribute to an answer. */
  function Walk(log: Log, exchange: string, bucket: int, n: nat, lo: int, hi: int): seq<TradeEvent> {
    if n == 0 then []
    else Walk(log, exchange, bucket, n - 1, lo, hi) + BucketTerm(log, exchange, bucket, n - 1, lo, hi)
  }

  /** Number of buckets a walk from `start` up to and including `end` visits. */
  function WalkLength(start: int, end: int): (n: nat)
    ensures 1 <= n <= BUCKET_COUNT
  {
    (end - start) % BUCKET_COUNT + 1
  }

  /** The answer of the bucket walk for a query in nanoseconds. */
  function Cold(log: Log, exchange: string, startNano: int64, endNano: int64): seq<TradeEvent> {
    var from, to := GetBucketIndex(startNano), GetBucketIndex(endNano);
    Walk(log, exchange, from, WalkLength(from, to),
         Millis(startNano), Millis(endNano))
  }

  /** The reference answer: second by second, and within a second in insertion order,
      the trades satisfying `p` of the `n` seconds from `from` on. */
  function BySecond(log: Log, p: WriteRequest -> bool, from: int, n: nat): seq<TradeEvent> {
    if n == 0 then []
    else BySecond(log, p, from, n - 1) + InSecond(log, p, from + n - 1)
  }

  predicate Within(r: WriteRequest, from: int, n: nat) {
    from <= Second(r.trade.timestamp) < from + n
  }

  function InSecond(log: Log, p: WriteRequest -> bool, second: int): seq<TradeEvent> {
    Select(log, (r: WriteRequest) => p(r) && Second(r.trade.timestamp) == second)
  }

  function Span(startNano: int64, endNano: int64): int {
    Second(endNano) - Second(startNano)
  }

  /** The flat log's own answer to a query: every matching trade, ordered by second. */
  function FlatAnswer(log: Log, exchange: string, startNano: int64, endNano: int64): seq<TradeEvent> {
    var lo, hi := Millis(startNano), Millis(endNano);
    BySecond(log, Matching(exchange, lo, hi), Second(startNano),
             if Span(startNano, endNano) < 0 then 0 else Span(startNano, endNano) + 1)
  }

  // ----- selections -----

  lemma SelectSnoc(log: Log, r: WriteRequest, p: WriteRequest -> bool)
    ensures Select(log + [r], p) == Select(log, p) + (if p(r) then [r.trade] else [])
  {
    assert (log + [r])[..|log|] == log;
  }

  lemma {:induction false} SelectConcat(a: Log, b: Log, p: WriteRequest -> bool)
    ensures Select(a + b, p) == Select(a, p) + Select(b, p)
  {
    if b == [] {
      assert a + b == a;
    } else {
      assert (a + b)[..|a + b| - 1] == a + b[..|b| - 1];
      SelectConcat(a, b[..|b| - 1], p);
    }
  }

  lemma {:induction false} SelectCongruence(log: Log, p: WriteRequest -> bool, q: WriteRequest -> bool)
    requires forall r :: r in log ==> p(r) == q(r)
    ensures Select(log, p) == Select(log, q)
  {
    if log != [] {
      SelectCongruence(log[..|log| - 1], p, q);
    }
  }

  lemma {:induction false} SelectNone(log: Log, p: WriteRequest -> bool)
    requires forall r :: r in log ==> !p(r)
    ensures Select(log, p) == []
  {
    if log != [] {
      SelectNone(log[..|log| - 1], p);
    }
  }

  lemma {:induction false} FilterOfSelect(log: Log, p: WriteRequest -> bool, q: TradeEvent -> bool)
    ensures Filter(Select(log, p), q) == Select(log, (r: WriteRequest) => p(r) && q(r.trade))
  {
    if log != [] {
      var init, last := log[..|log| - 1], log[|log| - 1];
      FilterOfSelect(init, p, q);
      FilterConcat(Select(init, p), if p(last) then [last.trade] else [], q);
    }
  }

  /** Selecting less from a shorter log yields a sub-sequence. */
  lemma {:induction false} SelectSubsequence(log: Log, n: nat, p: WriteRequest -> bool, q: WriteRequest -> bool)
    requires n <= |log|
    requires forall r :: r in log && p(r) ==> q(r)
    ensures Subsequence(Select(log[..n], p), Select(log, q))
  {
    if log == [] {
      SelectNothing(log[..n], p);
    } else {
      hide Select, Subsequence;
      var init, last := log[..|log| - 1], log[|log| - 1];
      assert last in log && forall r :: r in init ==> r in log;
      SelectLast(log, q);
      if n == |log| {
        SelectSubsequence(init, n - 1, p, q);
        assert log[..n] == log && init[..n - 1] == init;
        SelectLast(log, p);
        OneOrNone(last, p, q);
        SubsequenceConcat(Select(init, p), Select(init, q), Chosen(last, p), Chosen(last, q));
      } else {
        SelectSubsequence(init, n, p, q);
        assert log[..n] == init[..n];
        NoneFirst(Chosen(last, q));
        SubsequenceConcat(Select(init[..n], p), Select(init, q), [], Chosen(last, q));
        assert Select(init[..n], p) + [] == Select(init[..n], p);
      }
    }
  }

  function Chosen(r: WriteRequest, p: WriteRequest -> bool): seq<TradeEvent> {
    if p(r) then [r.trade] else []
  }

  lemma SelectNothing(log: Log, p: WriteRequest -> bool)
    requires log == []
    ensures Select(log, p) == []
  {
  }

  lemma SelectLast(log: Log, p: WriteRequest -> bool)
    requires log != []
    ensures Select(log, p) == Select(log[..|log| - 1], p) + Chosen(log[|log| - 1], p)
  {
  }

  lemma NoneFirst(b: seq<TradeEvent>)
    ensures Subsequence([], b)
  {
  }

  lemma OneOrNone(r: WriteRequest, p: WriteRequest -> bool, q: WriteRequest -> bool)
    requires p(r) ==> q(r)
    ensures Subsequence(Chosen(r, p), Chosen(r, q))
  {
  }

  // ----- the walk against the log -----

  lemma MillisAndSecond(nano: int64)
    requires nano > NANO_THRESHOLD
    ensures 1000 * Second(nano) <= Millis(nano) < 1000 * Second(nano) + 1000
  {
    var m, s := nano / NANOS_PER_MILLI, nano / NANOS_PER_SECOND;
    assert m * 1_000_000 <= nano < (m + 1) * 1_000_000;
    assert s * 1_000_000_000 <= nano < (s + 1) * 1_000_000_000;
  }

  lemma SecondOfStamp(timestamp: int)
    requires 0 <= timestamp <= NANO_THRESHOLD
    ensures 1000 * Second(timestamp) <= timestamp < 1000 * Second(timestamp) + 1000
  {
  }

  lemma SecondOfMillis(timestamp: int64, startNano: int64, endNano: int64)
    requires startNano > NANO_THRESHOLD && endNano > NANO_THRESHOLD
    requires Millis(startNano) <= timestamp <= Millis(endNano)
    ensures Second(startNano) <= Second(timestamp) <= Second(endNano)
  {
    MillisAndSecond(startNano);
    MillisAndSecond(endNano);
    MilliBound(endNano);
    MilliBound(startNano);
    SecondOfStamp(timestamp);
  }

  lemma MilliBound(nano: int64)
    requires nano > NANO_THRESHOLD
    ensures 0 <= Millis(nano) <= NANO_THRESHOLD
  {
  }

  /** `%` on the two laps a circular index can be in. */
  lemma OneLap(x: int)
    requires -BUCKET_COUNT <= x < 2 * BUCKET_COUNT
    ensures x % BUCKET_COUNT
            == if x < 0 then x + BUCKET_COUNT else if x < BUCKET_COUNT then x else x - BUCKET_COUNT
  {
  }

  lemma SameBucketSameSecond(from: int, s: int, k: int)
    requires from <= s < from + BUCKET_COUNT && 0 <= k < BUCKET_COUNT
    ensures s % BUCKET_COUNT == (from % BUCKET_COUNT + k) % BUCKET_COUNT <==> s == from + k
  {
    OneLap(from % BUCKET_COUNT + k);
    OneLap(from % BUCKET_COUNT + (s - from));
    ModOffset(from, s - from);
  }

  lemma ModOffset(from: int, d: int)
    requires 0 <= d < BUCKET_COUNT
    ensures (from + d) % BUCKET_COUNT == (from % BUCKET_COUNT + d) % BUCKET_COUNT
  {
    OneLap(from % BUCKET_COUNT + d);
  }

  /** Inside a short query, a bucket's matching trades are those of one second. */
  lemma BucketIsSecond(log: Log, exchange: string, startNano: int64, endNano: int64, k: nat)
    requires startNano > NANO_THRESHOLD && endNano > NANO_THRESHOLD
    requires Span(startNano, endNano) < BUCKET_COUNT && k < BUCKET_COUNT
    ensures var lo, hi := Millis(startNano), Millis(endNano);
            BucketTerm(log, exchange, GetBucketIndex(startNano), k, lo, hi)
            == InSecond(log, Matching(exchange, lo, hi), Second(startNano) + k)
  {
    var lo, hi := Millis(startNano), Millis(endNano);
    var from, bucket := Second(startNano), (GetBucketIndex(startNano) + k) % BUCKET_COUNT;
    var inBucket := (r: WriteRequest) => r.exchange == exchange && GetBucketIndex(r.trade.timestamp) == bucket;
    var inRange := (t: TradeEvent) => InRange(t, lo, hi);
    var matches := Matching(exchange, lo, hi);
    forall r | r in log
      ensures (inBucket(r) && inRange(r.trade)) == (matches(r) && Second(r.trade.timestamp) == from + k)
    {
      if matches(r) {
        SecondOfMillis(r.trade.timestamp, startNano, endNano);
        SameBucketSameSecond(from, Second(r.trade.timestamp), k);
      }
    }
    FilterOfSelect(log, inBucket, inRange);
    SelectCongruence(log, (r: WriteRequest) => inBucket(r) && inRange(r.trade),
                     (r: WriteRequest) => matches(r) && Second(r.trade.timestamp) == from + k);
  }

  lemma {:induction false} WalkIsBySecond(log: Log, exchange: string, bucket: int, from: int, n: nat, lo: int, hi: int)
    requires forall k :: 0 <= k < n ==>
      BucketTerm(log, exchange, bucket, k, lo, hi) == InSecond(log, Matching(exchange, lo, hi), from + k)
    ensures Walk(log, exchange, bucket, n, lo, hi) == BySecond(log, Matching(exchange, lo, hi), from, n)
  {
    if n > 0 {
      WalkIsBySecond(log, exchange, bucket, from, n - 1, lo, hi);
    }
  }

  lemma WalkLengthOfSpan(from: int, to: int)
    requires 0 <= to - from < BUCKET_COUNT
    ensures WalkLength(from % BUCKET_COUNT, to % BUCKET_COUNT) == to - from + 1
  {
    ModOffset(from, to - from);
    OneLap(from % BUCKET_COUNT + (to - from));
    OneLap(to % BUCKET_COUNT - from % BUCKET_COUNT);
  }

  lemma BackwardQueryIsEmpty(startNano: int64, endNano: int64)
    requires startNano > NANO_THRESHOLD && endNano > NANO_THRESHOLD && Span(startNano, endNano) < 0
    ensures Millis(endNano) < Millis(startNano)
  {
    MillisAndSecond(startNano);
    MillisAndSecond(endNano);
  }

  /** A query spanning fewer than 1200 seconds is answered exactly from the log. */
  lemma ColdIsFlatAnswer(log: Log, exchange: string, startNano: int64, endNano: int64)
    requires startNano > NANO_THRESHOLD && endNano > NANO_THRESHOLD
    requires Span(startNano, endNano) < BUCKET_COUNT
    ensures Cold(log, exchange, startNano, endNano) == FlatAnswer(log, exchange, startNano, endNano)
  {
    var from, to := GetBucketIndex(startNano), GetBucketIndex(endNano);
    var n, lo, hi := WalkLength(from, to), Millis(startNano), Millis(endNano);
    forall k: nat | k < n
      ensures BucketTerm(log, exchange, from, k, lo, hi) == InSecond(log, Matching(exchange, lo, hi), Second(startNano) + k)
    {
      BucketIsSecond(log, exchange, startNano, endNano, k);
    }
    WalkIsBySecond(log, exchange, from, Second(startNano), n, lo, hi);
    if Span(startNano, endNano) >= 0 {
      WalkLengthOfSpan(Second(startNano), Second(endNano));
    } else {
      BackwardQueryIsEmpty(startNano, endNano);
      BySecondOutside(log, Matching(exchange, lo, hi), Second(startNano), n);
    }
  }

  /** Seconds that hold no selected trade contribute nothing. */
  lemma {:induction false} BySecondOutside(log: Log, p: WriteRequest -> bool, from: int, n: nat)
    requires forall r :: r in log && p(r) ==> !Within(r, from, n)
    ensures BySecond(log, p, from, n) == []
  {
    if n > 0 {
      BySecondOutside(log, p, from, n - 1);
      SelectNone(log, (r: WriteRequest) => p(r) && Second(r.trade.timestamp) == from + n - 1);
    }
  }

  /** For every longer query some log is answered differently from the flat one, so the
      span bound is exactly what the index needs. */
  lemma ColdExactIffSpanFits(exchange: string, startNano: int64, endNano: int64)
    requires startNano > NANO_THRESHOLD && endNano > NANO_THRESHOLD
    ensures (forall log :: Cold(log, exchange, startNano, endNano) == FlatAnswer(log, exchange, startNano, endNano))
            <==> Span(startNano, endNano) < BUCKET_COUNT
  {
    if Span(startNano, endNano) < BUCKET_COUNT {
      forall log ensures Cold(log, exchange, startNano, endNano) == FlatAnswer(log, exchange, startNano, endNano) {
        ColdIsFlatAnswer(log, exchange, startNano, endNano);
      }
    } else {
      var log := LongQueryWitness(exchange, startNano, endNano);
    }
  }

  /** The first millisecond of the second `k` seconds after the start of a query. */
  function StampAfter(startNano: int64, k: nat): (ms: int64)
    requires startNano > NANO_THRESHOLD && k <= BUCKET_COUNT
    ensures Second(ms) == Second(startNano) + k && ms == 1000 * Second(ms)
  {
    StampBound(startNano, k);
    (Second(startNano) + k) * 1000
  }

  lemma StampBound(startNano: int64, k: nat)
    requires startNano > NANO_THRESHOLD && k <= BUCKET_COUNT
    ensures 0 <= (Second(startNano) + k) * 1000 <= NANO_THRESHOLD
  {
  }

  lemma StampInQuery(startNano: int64, endNano: int64, k: nat)
    requires startNano > NANO_THRESHOLD && endNano > NANO_THRESHOLD
    requires 0 < k <= BUCKET_COUNT && Span(startNano, endNano) >= k
    ensures InRange(TradeAt(StampAfter(startNano, k)), Millis(startNano), Millis(endNano))
  {
    MillisAndSecond(startNano);
    MillisAndSecond(endNano);
  }

  /** Two trades 1199 seconds apart, the later one stored last but read first. */
  lemma LongQueryWitness(exchange: string, startNano: int64, endNano: int64) returns (log: Log)
    requires startNano > NANO_THRESHOLD && endNano > NANO_THRESHOLD
    requires Span(startNano, endNano) >= BUCKET_COUNT
    ensures Cold(log, exchange, startNano, endNano) != FlatAnswer(log, exchange, startNano, endNano)
  {
    var early, late := TradeAt(StampAfter(startNano, 1)), TradeAt(StampAfter(startNano, BUCKET_COUNT));
    StampInQuery(startNano, endNano, 1);
    StampInQuery(startNano, endNano, BUCKET_COUNT);
    log := [WriteRequest(exchange, early), WriteRequest(exchange, late)];
    ColdStartsLate(log, exchange, startNano, endNano);
    var lo, hi := Millis(startNano), Millis(endNano);
    FirstOfFlatIsEarly(log, Matching(exchange, lo, hi), Second(startNano), Span(startNano, endNano) + 1);
    assert Cold(log, exchange, startNano, endNano)[0] == late;
    assert FlatAnswer(log, exchange, startNano, endNano)[0] == early;
    assert early.timestamp != late.timestamp;
  }

  lemma ColdStartsLate(log: Log, exchange: string, startNano: int64, endNano: int64)
    requires startNano > NANO_THRESHOLD && endNano > NANO_THRESHOLD
    requires |log| == 2 && log[0].exchange == log[1].exchange == exchange
    requires log[0].trade == TradeAt(StampAfter(startNano, 1))
    requires log[1].trade == TradeAt(StampAfter(startNano, BUCKET_COUNT))
    requires InRange(log[1].trade, Millis(startNano), Millis(endNano))
    ensures [log[1].trade] <= Cold(log, exchange, startNano, endNano)
  {
    hide Walk, Select;
    var b, n := GetBucketIndex(startNano), WalkLength(GetBucketIndex(startNano), GetBucketIndex(endNano));
    FirstWalkedIsLate(log, exchange, b, n, Millis(startNano), Millis(endNano));
  }

  lemma FirstWalkedIsLate(log: Log, exchange: string, b: int, n: nat, lo: int, hi: int)
    requires |log| == 2 && n > 0 && 0 <= b < BUCKET_COUNT && log[1].exchange == exchange
    requires GetBucketIndex(log[1].trade.timestamp) == b != GetBucketIndex(log[0].trade.timestamp)
    requires InRange(log[1].trade, lo, hi)
    ensures [log[1].trade] <= Walk(log, exchange, b, n, lo, hi)
  {
    WalkStartsWith(log, exchange, b, n, lo, hi);
    SelectPair(log, (r: WriteRequest) => r.exchange == exchange && GetBucketIndex(r.trade.timestamp) == b);
    assert BucketContent(log, exchange, b) == [log[1].trade];
    FilterSnoc([], log[1].trade, (t: TradeEvent) => InRange(t, lo, hi));
    assert [] + [log[1].trade] == [log[1].trade];
  }

  lemma FirstOfFlatIsEarly(log: Log, p: WriteRequest -> bool, from: int, n: nat)
    requires |log| == 2 && n >= 2 && p(log[0])
    requires Second(log[0].trade.timestamp) == from + 1 && Second(log[1].trade.timestamp) > from + 1
    ensures [log[0].trade] <= BySecond(log, p, from, n)
  {
    BySecondSplit(log, p, from, 2, n - 2);
    SelectPair(log, (r: WriteRequest) => p(r) && Second(r.trade.timestamp) == from);
    SelectPair(log, (r: WriteRequest) => p(r) && Second(r.trade.timestamp) == from + 1);
    assert InSecond(log, p, from) == [] && InSecond(log, p, from + 1) == [log[0].trade];
    assert BySecond(log, p, from, 1) == BySecond(log, p, from, 0) + InSecond(log, p, from);
    assert BySecond(log, p, from, 2) == BySecond(log, p, from, 1) + InSecond(log, p, from + 1);
  }

  lemma SelectPair(log: Log, p: WriteRequest -> bool)
    requires |log| == 2
    ensures Select(log, p)
            == (if p(log[0]) then [log[0].trade] else []) + (if p(log[1]) then [log[1].trade] else [])
  {
    assert log[..1] == [log[0]] && log[..1][..0] == [];
    assert Select(log[..1], p) == Select([], p) + (if p(log[0]) then [log[0].trade] else []);
  }

  lemma {:induction false} WalkStartsWith(log: Log, exchange: string, bucket: int, n: nat, lo: int, hi: int)
    requires n > 0 && 0 <= bucket < BUCKET_COUNT
    ensures Filter(BucketContent(log, exchange, bucket), (t: TradeEvent) => InRange(t, lo, hi))
            <= Walk(log, exchange, bucket, n, lo, hi)
  {
    if n > 1 {
      WalkStartsWith(log, exchange, bucket, n - 1, lo, hi);
    } else {
      assert Walk(log, exchange, bucket, 0, lo, hi) == [];
    }
  }

  // ----- what the flat answer means -----

  lemma {:induction false} BySecondSplit(log: Log, p: WriteRequest -> bool, from: int, m: nat, n: nat)
    ensures BySecond(log, p, from, m + n) == BySecond(log, p, from, m) + BySecond(log, p, from + m, n)
  {
    if n > 0 {
      BySecondSplit(log, p, from, m, n - 1);
    }
  }

  /** Seconds without selected trades on either side may be added freely. */
  lemma BySecondWiden(log: Log, p: WriteRequest -> bool, from: int, n: nat, from': int, n': nat)
    requires from' <= from && from + n <= from' + n'
    requires forall r :: r in log && p(r) ==> Within(r, from, n)
    ensures BySecond(log, p, from', n') == BySecond(log, p, from, n)
  {
    var before, after := from - from', from' + n' - from - n;
    BySecondSplit(log, p, from', before, n + after);
    BySecondSplit(log, p, from, n, after);
    forall r | r in log && p(r) ensures !Within(r, from', before) && !Within(r, from + n, after) {
      assert Within(r, from, n);
    }
    BySecondOutside(log, p, from', before);
    BySecondOutside(log, p, from + n, after);
  }

  /** The reference answer is a permutation of the selected trades. */
  lemma {:induction false} BySecondIsPermutation(log: Log, p: WriteRequest -> bool, from: int, n: nat)
    ensures multiset(BySecond(log, p, from, n))
            == multiset(Select(log, (r: WriteRequest) => p(r) && Within(r, from, n)))
  {
    hide Select, Second;
    var q := (r: WriteRequest) => p(r) && Within(r, from, n);
    if n == 0 {
      SelectNone(log, q);
    } else {
      BySecondIsPermutation(log, p, from, n - 1);
      var init := (r: WriteRequest) => p(r) && Within(r, from, n - 1);
      var last := (r: WriteRequest) => p(r) && Second(r.trade.timestamp) == from + n - 1;
      SelectPartition(log, q, init, last);
      assert InSecond(log, p, from + n - 1) == Select(log, last);
      MultisetConcat(BySecond(log, p, from, n - 1), InSecond(log, p, from + n - 1));
    }
  }

  lemma InSecondIsThatSecond(log: Log, p: WriteRequest -> bool, second: int)
    ensures forall t :: t in InSecond(log, p, second) ==> Second(t.timestamp) == second
  {
    SelectMember(log, (r: WriteRequest) => p(r) && Second(r.trade.timestamp) == second);
  }

  lemma {:induction false} BySecondIsWithin(log: Log, p: WriteRequest -> bool, from: int, n: nat)
    ensures forall t :: t in BySecond(log, p, from, n) ==> from <= Second(t.timestamp) < from + n
  {
    if n > 0 {
      BySecondIsWithin(log, p, from, n - 1);
      InSecondIsThatSecond(log, p, from + n - 1);
    }
  }

  predicate SecondsOrdered(a: seq<TradeEvent>) {
    forall i, j :: 0 <= i < j < |a| ==> Second(a[i].timestamp) <= Second(a[j].timestamp)
  }

  /** The reference answer never goes back a second. */
  lemma {:induction false} BySecondIsOrdered(log: Log, p: WriteRequest -> bool, from: int, n: nat)
    ensures SecondsOrdered(BySecond(log, p, from, n))
  {
    hide Second, InSecond;
    if n > 0 {
      BySecondIsOrdered(log, p, from, n - 1);
      BySecondIsWithin(log, p, from, n - 1);
      InSecondIsThatSecond(log, p, from + n - 1);
      OrderedConcat(BySecond(log, p, from, n - 1), InSecond(log, p, from + n - 1), from + n - 1);
    }
  }

  lemma OrderedConcat(a: seq<TradeEvent>, b: seq<TradeEvent>, second: int)
    requires SecondsOrdered(a)
    requires forall t :: t in a ==> Second(t.timestamp) < second
    requires forall t :: t in b ==> Second(t.timestamp) == second
    ensures SecondsOrdered(a + b)
  {
    forall i, j | 0 <= i < j < |a + b| ensures Second((a + b)[i].timestamp) <= Second((a + b)[j].timestamp) {
      if j >= |a| {
        assert (a + b)[j] in b;
        if i >= |a| { assert (a + b)[i] in b; } else { assert (a + b)[i] in a; }
      }
    }
  }

  function OfSecond(a: seq<TradeEvent>, second: int): seq<TradeEvent> {
    Filter(a, (t: TradeEvent) => Second(t.timestamp) == second)
  }

  lemma {:induction false} OfSecondAll(a: seq<TradeEvent>, second: int)
    requires forall t :: t in a ==> Second(t.timestamp) == second
    ensures OfSecond(a, second) == a
  {
    if a != [] {
      OfSecondAll(a[..|a| - 1], second);
    }
  }

  lemma {:induction false} OfSecondNone(a: seq<TradeEvent>, second: int)
    requires forall t :: t in a ==> Second(t.timestamp) != second
    ensures OfSecond(a, second) == []
  {
    if a != [] {
      OfSecondNone(a[..|a| - 1], second);
    }
  }

  /** Each second lists its trades in the order they were stored. */
  lemma {:induction false} BySecondIsStable(log: Log, p: WriteRequest -> bool, from: int, n: nat, second: int)
    requires from <= second < from + n
    ensures OfSecond(BySecond(log, p, from, n), second) == InSecond(log, p, second)
  {
    var init, last := BySecond(log, p, from, n - 1), from + n - 1;
    FilterConcat(init, InSecond(log, p, last), (t: TradeEvent) => Second(t.timestamp) == second);
    assert OfSecond(BySecond(log, p, from, n), second) == OfSecond(init, second) + OfSecond(InSecond(log, p, last), second);
    InSecondIsThatSecond(log, p, last);
    if second == last {
      BySecondIsWithin(log, p, from, n - 1);
      OfSecondNone(init, second);
      OfSecondAll(InSecond(log, p, last), second);
    } else {
      BySecondIsStable(log, p, from, n - 1, second);
      OfSecondNone(InSecond(log, p, last), second);
    }
  }

  lemma {:induction false} SelectMember(log: Log, p: WriteRequest -> bool)
    ensures forall t :: t in Select(log, p) ==> exists r :: r in log && p(r) && r.trade == t
  {
    if log != [] {
      SelectMember(log[..|log| - 1], p);
    }
  }

  lemma {:induction false} SelectPartition(log: Log, p: WriteRequest -> bool, q: WriteRequest -> bool, q': WriteRequest -> bool)
    requires forall r :: r in log ==> p(r) == (q(r) || q'(r)) && !(q(r) && q'(r))
    ensures multiset(Select(log, p)) == multiset(Select(log, q)) + multiset(Select(log, q'))
  {
    if log != [] {
      SelectPartition(log[..|log| - 1], p, q, q');
    }
  }

  /** The flat answer holds exactly the stored trades of that exchange in the range, second
      by second, and in insertion order within each second. */
  lemma FlatAnswerMeaning(log: Log, exchange: string, startNano: int64, endNano: int64, second: int)
    requires startNano > NANO_THRESHOLD && endNano > NANO_THRESHOLD
    ensures var a := FlatAnswer(log, exchange, startNano, endNano);
            var lo, hi := Millis(startNano), Millis(endNano);
            && multiset(a) == multiset(Select(log, Matching(exchange, lo, hi)))
            && SecondsOrdered(a)
            && (Second(startNano) <= second <= Second(endNano) ==>
                  OfSecond(a, second)
                  == Select(log, (r: WriteRequest) => Matches(r, exchange, lo, hi) && Second(r.trade.timestamp) == second))
  {
    var lo, hi := Millis(startNano), Millis(endNano);
    var p := Matching(exchange, lo, hi);
    var from, n := Second(startNano), if Span(startNano, endNano) < 0 then 0 else Span(startNano, endNano) + 1;
    BySecondIsPermutation(log, p, from, n);
    BySecondIsOrdered(log, p, from, n);
    forall r | r in log ensures p(r) == (p(r) && Within(r, from, n)) {
      if p(r) { SecondOfMillis(r.trade.timestamp, startNano, endNano); }
    }
    SelectCongruence(log, p, (r: WriteRequest) => p(r) && Within(r, from, n));
    if Second(startNano) <= second <= Second(endNano) {
      BySecondIsStable(log, p, from, n, second);
      SelectCongruence(log, (r: WriteRequest) => p(r) && Second(r.trade.timestamp) == second,
                       (r: WriteRequest) => Matches(r, exchange, lo, hi) && Second(r.trade.timestamp) == second);
    }
  }
}
