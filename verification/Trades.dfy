/** The trade record shared by every component, Go's 64-bit integers and truncated
    division, and the few facts about selecting from a log that several modules need. */
module Trades {

  datatype Option<T> = None | Some(value: T)

  const NANOS_PER_MILLI: int := 1_000_000

  /** A decimal text field after parsing: Go's ParseFloat either fails or yields a number. */
  datatype Number = NotANumber | Num(v: real)

  datatype TradeEvent = TradeEvent(
    exchange: string, marketType: string, symbol: string, tradeID: string,
    price: Number, quantity: Number, side: string,
    timestamp: int64, collectedAt: int64, triggerTime: int64,
    isBuyerMaker: bool, quoteQty: string)

  /** A trade to build inputs from, regular in everything but the stamp. */
  function TradeAt(timestamp: int64): TradeEvent {
    TradeEvent("binance", "spot", "BTCUSDT", "", Num(1.0), Num(1.0), "buy", timestamp, 0, 0, false, "")
  }

  const MIN64: int := -0x8000_0000_0000_0000
  const MAX64: int := 0x7fff_ffff_ffff_ffff

  type int64 = x: int | MIN64 <= x <= MAX64

  /** Two's-complement wrap-around of a 64-bit result. */
  function Wrap64(x: int): int64 {
    (x - MIN64) % 0x1_0000_0000_0000_0000 + MIN64
  }

  /** Go's `/` on integers: the quotient is cut towards zero. */
  function GoDiv(a: int, b: int): int
    requires b > 0
  {
    if a >= 0 then a / b else -((-a) / b)
  }

  /** Go's `%` on integers: the remainder has the dividend's sign. */
  function GoMod(a: int, b: int): int
    requires b > 0
  {
    a - GoDiv(a, b) * b
  }

  /** A time in nanoseconds as the milliseconds trades are stamped in. */
  function Millis(nano: int): int {
    GoDiv(nano, NANOS_PER_MILLI)
  }

  /** Quotient and remainder are unique: `%` for a divisor that is not a constant. */
  lemma ModUnique(x: int, m: int, q: int, r: int)
    requires m > 0 && x == q * m + r && 0 <= r < m
    ensures x % m == r
  {
    var q', r' := x / m, x % m;
    if q' < q {
      AtLeastOneTime(q - q', m);
      Distribute(q, q', m);
    } else if q < q' {
      AtLeastOneTime(q' - q, m);
      Distribute(q', q, m);
    }
  }

  lemma AtLeastOneTime(d: int, m: int)
    requires d >= 1 && m >= 0
    ensures d * m >= m
  {
  }

  lemma Distribute(a: int, b: int, m: int)
    ensures (a - b) * m == a * m - b * m
  {
  }

  /** `%` of a sum of two positions in a ring. */
  lemma ModOneLap(x: int, m: int)
    requires m > 0 && 0 <= x < 2 * m
    ensures x % m == if x < m then x else x - m
  {
    ModUnique(x, m, if x < m then 0 else 1, if x < m then x else x - m);
  }

  predicate InRange(t: TradeEvent, lo: int, hi: int) {
    lo <= t.timestamp <= hi
  }

  function Filter<T>(s: seq<T>, p: T -> bool): seq<T> {
    if s == [] then []
    else Filter(s[..|s| - 1], p) + (if p(s[|s| - 1]) then [s[|s| - 1]] else [])
  }

  lemma FilterSnoc<T>(s: seq<T>, x: T, p: T -> bool)
    ensures Filter(s + [x], p) == Filter(s, p) + (if p(x) then [x] else [])
  {
    assert (s + [x])[..|s|] == s;
  }

  lemma {:induction false} FilterConcat<T>(a: seq<T>, b: seq<T>, p: T -> bool)
    ensures Filter(a + b, p) == Filter(a, p) + Filter(b, p)
  {
    if b == [] {
      assert a + b == a;
    } else {
      assert (a + b)[..|a + b| - 1] == a + b[..|b| - 1];
      FilterConcat(a, b[..|b| - 1], p);
    }
  }

  lemma {:induction false} FilterMember<T>(s: seq<T>, p: T -> bool)
    ensures forall x :: x in Filter(s, p) <==> x in s && p(x)
  {
    if s != [] {
      FilterMember(s[..|s| - 1], p);
      assert s == s[..|s| - 1] + [s[|s| - 1]];
    }
  }

  lemma {:induction false} FilterNone<T>(s: seq<T>, p: T -> bool)
    requires forall i :: 0 <= i < |s| ==> !p(s[i])
    ensures Filter(s, p) == []
  {
    if s != [] {
      FilterNone(s[..|s| - 1], p);
    }
  }

  /** A selection is the sum of two that divide it. */
  lemma {:induction false} FilterDivided<T>(s: seq<T>, p: T -> bool, q: T -> bool, r: T -> bool)
    requires forall x :: x in s ==> p(x) == (q(x) || r(x)) && !(q(x) && r(x))
    ensures multiset(Filter(s, q)) + multiset(Filter(s, r)) == multiset(Filter(s, p))
  {
    if s != [] {
      FilterDivided(s[..|s| - 1], p, q, r);
    }
  }

  /** A stronger test keeps no more, and strictly less once it rejects something. */
  lemma {:induction false} FilterShorter<T>(s: seq<T>, p: T -> bool, q: T -> bool)
    requires forall x :: x in s && p(x) ==> q(x)
    ensures |Filter(s, p)| <= |Filter(s, q)|
    ensures |Filter(s, p)| == |Filter(s, q)| ==> Filter(s, p) == Filter(s, q) && forall x :: x in s && q(x) ==> p(x)
  {
    if s != [] {
      FilterShorter(s[..|s| - 1], p, q);
      assert s == s[..|s| - 1] + [s[|s| - 1]];
    }
  }

  lemma {:induction false} FilterCongruence<T>(s: seq<T>, p: T -> bool, q: T -> bool)
    requires forall x :: x in s ==> p(x) == q(x)
    ensures Filter(s, p) == Filter(s, q)
  {
    if s != [] {
      FilterCongruence(s[..|s| - 1], p, q);
    }
  }

  lemma MultisetConcat<T>(a: seq<T>, b: seq<T>)
    ensures multiset(a + b) == multiset(a) + multiset(b)
  {
  }

  /** The loop the read paths share: keep the trades inside the range, in order. */
  method SelectRange(trades: seq<TradeEvent>, lo: int, hi: int) returns (result: seq<TradeEvent>)
    ensures result == Filter(trades, (t: TradeEvent) => InRange(t, lo, hi))
  {
    result := [];
    for i := 0 to |trades|
      invariant result == Filter(trades[..i], (t: TradeEvent) => InRange(t, lo, hi))
    {
      assert trades[..i + 1] == trades[..i] + [trades[i]];
      FilterSnoc(trades[..i], trades[i], (t: TradeEvent) => InRange(t, lo, hi));
      if trades[i].timestamp >= lo && trades[i].timestamp <= hi {
        result := result + [trades[i]];
      }
    }
    assert trades[..|trades|] == trades;
  }

  /** `a` is what is left of `b` after deleting some elements. */
  predicate Subsequence<T(==)>(a: seq<T>, b: seq<T>)
    decreases |b|
  {
    a == [] ||
    (b != [] &&
     ((a[|a| - 1] == b[|b| - 1] && Subsequence(a[..|a| - 1], b[..|b| - 1])) ||
      Subsequence(a, b[..|b| - 1])))
  }

  lemma {:induction false} SubsequenceConcat<T>(a: seq<T>, b: seq<T>, c: seq<T>, d: seq<T>)
    requires Subsequence(a, b) && Subsequence(c, d)
    ensures Subsequence(a + c, b + d)
    decreases |d|
  {
    if d == [] {
      assert a + c == a && b + d == b;
    } else {
      var d' := d[..|d| - 1];
      assert (b + d)[..|b + d| - 1] == b + d';
      if c == [] {
        SubsequenceConcat(a, b, c, d');
      } else if c[|c| - 1] == d[|d| - 1] && Subsequence(c[..|c| - 1], d') {
        SubsequenceConcat(a, b, c[..|c| - 1], d');
        assert (a + c)[..|a + c| - 1] == a + c[..|c| - 1];
      } else {
        SubsequenceConcat(a, b, c, d');
      }
    }
  }

  /** The pieces one after the other. */
  function Concat<T>(pieces: seq<seq<T>>): seq<T> {
    if pieces == [] then [] else Concat(pieces[..|pieces| - 1]) + pieces[|pieces| - 1]
  }

  lemma ConcatSnoc<T>(pieces: seq<seq<T>>, piece: seq<T>)
    ensures Concat(pieces + [piece]) == Concat(pieces) + piece
  {
    assert (pieces + [piece])[..|pieces|] == pieces;
  }

  predicate SortedByTime(s: seq<TradeEvent>) {
    forall i, j :: 0 <= i < j < |s| ==> s[i].timestamp <= s[j].timestamp
  }

  /** `sort.Slice` by timestamp. Go's sort is unstable, so callers may rely on the
      contract only, never on the order this body gives to equal timestamps. */
  method SortByTime(s: seq<TradeEvent>) returns (r: seq<TradeEvent>)
    ensures multiset(r) == multiset(s) && |r| == |s|
    ensures SortedByTime(r)
  {
    r := [];
    for n := 0 to |s|
      invariant |r| == n && multiset(r) == multiset(s[..n])
      invariant SortedByTime(r)
    {
      assert s[..n + 1] == s[..n] + [s[n]];
      r := InsertByTime(r, s[n]);
    }
    assert s[..|s|] == s;
  }

  method InsertByTime(r: seq<TradeEvent>, x: TradeEvent) returns (q: seq<TradeEvent>)
    requires SortedByTime(r)
    ensures SortedByTime(q) && |q| == |r| + 1
    ensures multiset(q) == multiset(r) + multiset{x}
  {
    var k := |r|;
    while k > 0 && r[k - 1].timestamp > x.timestamp
      invariant 0 <= k <= |r|
      invariant forall i :: k <= i < |r| ==> r[i].timestamp > x.timestamp
    {
      k := k - 1;
    }
    q := r[..k] + [x] + r[k..];
    InsertKeepsMultiset(r, k, x);
    InsertKeepsOrder(r, k, x);
  }

  lemma InsertKeepsMultiset<T>(r: seq<T>, k: nat, x: T)
    requires k <= |r|
    ensures multiset(r[..k] + [x] + r[k..]) == multiset(r) + multiset{x}
  {
    assert r == r[..k] + r[k..];
  }

  lemma InsertKeepsOrder(r: seq<TradeEvent>, k: nat, x: TradeEvent)
    requires k <= |r| && SortedByTime(r)
    requires k > 0 ==> r[k - 1].timestamp <= x.timestamp
    requires forall i :: k <= i < |r| ==> x.timestamp < r[i].timestamp
    ensures SortedByTime(r[..k] + [x] + r[k..])
  {
    var q := r[..k] + [x] + r[k..];
    forall i, j | 0 <= i < j < |q| ensures q[i].timestamp <= q[j].timestamp {
      assert q[i] == if i < k then r[i] else if i == k then x else r[i - 1];
      assert q[j] == if j < k then r[j] else if j == k then x else r[j - 1];
    }
  }
}
