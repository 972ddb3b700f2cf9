/** What the delta compressor makes of a time-sorted list of trades, what decoding makes of
    that, and exactly which lists survive the trip. */
module DeltaCodec {
  import opened Trades
  import opened BinaryFrame

  const SCALE: int := 1_000_000
  const MICRO: real := 1000000.0

  const EXCHANGES: seq<string> := ["binance", "bybit", "okx", "kucoin", "gate", "phemex"]
  const MARKETS: seq<string> := ["spot", "futures", "margin"]

  /** Go's float-to-integer conversion cuts towards zero. */
  function Trunc(x: real): int {
    if x >= 0.0 then x.Floor else -((-x).Floor)
  }

  // ----- deltas -----

  /** The running state of the compression loop. */
  datatype Deltas = Deltas(basePrice: real, baseTime: int64, prices: seq<int>, times: seq<int>, volumes: seq<int>)

  predicate Parses(t: TradeEvent) {
    t.price.Num? && t.quantity.Num?
  }

  predicate AllParse(trades: seq<TradeEvent>) {
    forall i :: 0 <= i < |trades| ==> Parses(trades[i])
  }

  function PriceDelta(base: real, price: real): real {
    (price - base) * MICRO
  }

  predicate PriceFits(base: real, price: real) {
    -32768.0 <= PriceDelta(base, price) <= 32767.0
  }

  function TimeDelta(base: int64, timestamp: int64): int {
    GoDiv(Wrap64(timestamp - base), NANOS_PER_MILLI)
  }

  function VolumeCode(quantity: real): int {
    Trunc(quantity * MICRO) % 0x1_0000_0000
  }

  function Step(d: Deltas, t: TradeEvent): Deltas {
    if !Parses(t) then
      d.(prices := d.prices + [0], times := d.times + [0], volumes := d.volumes + [0])
    else
      var rebasePrice := !PriceFits(d.basePrice, t.price.v);
      var rebaseTime := TimeDelta(d.baseTime, t.timestamp) > 65535;
      Deltas(
        if rebasePrice then t.price.v else d.basePrice,
        if rebaseTime then t.timestamp else d.baseTime,
        d.prices + [if rebasePrice then 0 else Trunc(PriceDelta(d.basePrice, t.price.v))],
        d.times + [if rebaseTime then 0 else TimeDelta(d.baseTime, t.timestamp) % 0x1_0000],
        d.volumes + [VolumeCode(t.quantity.v)])
  }

  /** The loop over the first `n` sorted trades. */
  function Run(trades: seq<TradeEvent>, n: nat): Deltas
    requires n <= |trades| && |trades| > 0 && trades[0].price.Num?
  {
    if n == 0 then Deltas(trades[0].price.v, trades[0].timestamp, [], [], [])
    else Step(Run(trades, n - 1), trades[n - 1])
  }

  function DecodedPrice(base: real, delta: int): real {
    base + delta as real / MICRO
  }

  function DecodedTime(base: int, delta: int): int64 {
    Wrap64(base + delta * NANOS_PER_MILLI)
  }

  lemma {:induction false} RunShape(trades: seq<TradeEvent>, n: nat)
    requires n <= |trades| && |trades| > 0 && trades[0].price.Num?
    ensures var d := Run(trades, n);
            && |d.prices| == |d.times| == |d.volumes| == n
            && (forall i :: 0 <= i < n ==> -32768 <= d.prices[i] <= 32767)
            && (forall i :: 0 <= i < n ==> 0 <= d.times[i] < 0x1_0000)
            && (forall i :: 0 <= i < n ==> 0 <= d.volumes[i] < 0x1_0000_0000)
  {
    if n > 0 {
      RunShape(trades, n - 1);
      var d, t := Run(trades, n - 1), trades[n - 1];
      if Parses(t) && PriceFits(d.basePrice, t.price.v) {
        TruncKeepsRange(PriceDelta(d.basePrice, t.price.v), -32768, 32767);
      }
    }
  }

  lemma TruncKeepsRange(x: real, lo: int, hi: int)
    requires lo <= 0 <= hi && lo as real <= x <= hi as real
    ensures lo <= Trunc(x) <= hi
  {
  }

  lemma TruncIsClose(x: real)
    ensures -1.0 < x - Trunc(x) as real < 1.0
    ensures (x >= 0.0 ==> Trunc(x) >= 0) && (x <= 0.0 ==> Trunc(x) <= 0)
  {
  }

  /** Whatever is stored after the first `n` trades stays; only the bases may still move. */
  lemma {:induction false} RunExtends(trades: seq<TradeEvent>, m: nat, n: nat)
    requires m <= n <= |trades| && |trades| > 0 && trades[0].price.Num?
    ensures Run(trades, m).prices <= Run(trades, n).prices && Run(trades, m).times <= Run(trades, n).times
            && Run(trades, m).volumes <= Run(trades, n).volumes
  {
    if m < n {
      RunExtends(trades, m, n - 1);
    }
  }

  // ----- prices: exact iff nothing is rebased -----

  predicate PriceClose(t: TradeEvent, decoded: real) {
    t.price.Num? && -1.0 < (t.price.v - decoded) * MICRO < 1.0
  }

  predicate PricesFit(trades: seq<TradeEvent>, n: nat)
    requires n <= |trades| && |trades| > 0 && trades[0].price.Num?
  {
    forall i :: 0 <= i < n && Parses(trades[i]) ==> PriceFits(trades[0].price.v, trades[i].price.v)
  }

  lemma {:induction false} NoPriceRebase(trades: seq<TradeEvent>, n: nat)
    requires n <= |trades| && |trades| > 0 && trades[0].price.Num? && PricesFit(trades, n)
    ensures var d := Run(trades, n);
            && d.basePrice == trades[0].price.v && |d.prices| == n
            && forall i :: 0 <= i < n && Parses(trades[i]) ==>
                 d.prices[i] == Trunc(PriceDelta(trades[0].price.v, trades[i].price.v))
  {
    if n > 0 {
      NoPriceRebase(trades, n - 1);
    }
  }

  lemma TruncatedDeltaIsClose(base: real, price: real)
    ensures -1.0 < (price - DecodedPrice(base, Trunc(PriceDelta(base, price)))) * MICRO < 1.0
  {
    TruncIsClose(PriceDelta(base, price));
  }

  /** After the first `n` trades the current base price is that of a trade whose stored delta is 0. */
  lemma {:induction false} BaseIsSomePrice(trades: seq<TradeEvent>, n: nat) returns (j: nat)
    requires 0 < n <= |trades| && AllParse(trades)
    ensures j < n && |Run(trades, n).prices| == n
    ensures Run(trades, n).basePrice == trades[j].price.v && Run(trades, n).prices[j] == 0
  {
    RunShape(trades, n - 1);
    var d := Run(trades, n - 1);
    if n == 1 {
      j := 0;
      assert PriceDelta(d.basePrice, trades[0].price.v) == 0.0;
    } else if PriceFits(d.basePrice, trades[n - 1].price.v) {
      j := BaseIsSomePrice(trades, n - 1);
      assert Run(trades, n).prices[j] == d.prices[j];
    } else {
      j := n - 1;
    }
  }

  lemma RebasedIsFar(base: real, price: real)
    requires !PriceFits(base, price)
    ensures !(-1.0 < (base - DecodedPrice(price, 0)) * MICRO < 1.0)
  {
    assert DecodedPrice(price, 0) == price;
    assert (base - price) * MICRO == -PriceDelta(base, price);
  }

  lemma FirstPriceFits(trades: seq<TradeEvent>)
    requires 0 < |trades| && AllParse(trades)
    ensures PricesFit(trades, 1)
  {
    assert PriceDelta(trades[0].price.v, trades[0].price.v) == 0.0;
  }

  lemma StepAppendsPrice(d: Deltas, t: TradeEvent)
    requires Parses(t)
    ensures d.prices <= Step(d, t).prices
    ensures Step(d, t).basePrice == if PriceFits(d.basePrice, t.price.v) then d.basePrice else t.price.v
  {
  }

  /** A re-base leaves some earlier trade that decodes to a price more than 32766 units off. */
  lemma {:induction false} PriceRebaseLosesOne(trades: seq<TradeEvent>, n: nat) returns (j: nat)
    requires 0 < n <= |trades| && AllParse(trades)
    requires !PricesFit(trades, n)
    ensures j < n && |Run(trades, n).prices| == n
    ensures !PriceClose(trades[j], DecodedPrice(Run(trades, n).basePrice, Run(trades, n).prices[j]))
  {
    FirstPriceFits(trades);
    RunShape(trades, n - 1);
    RunShape(trades, n);
    var d, t := Run(trades, n - 1), trades[n - 1];
    StepAppendsPrice(d, t);
    if PricesFit(trades, n - 1) {
      NoPriceRebase(trades, n - 1);
    }
    if PriceFits(d.basePrice, t.price.v) {
      j := PriceRebaseLosesOne(trades, n - 1);
    } else {
      j := BaseIsSomePrice(trades, n - 1);
      RebasedIsFar(d.basePrice, t.price.v);
    }
    assert Run(trades, n).prices[j] == d.prices[j];
  }

  // ----- times -----

  predicate TimeClose(t: TradeEvent, decoded: int64) {
    decoded <= t.timestamp < decoded + NANOS_PER_MILLI
  }

  /** All stamps lie less than 65536 steps of a million after the first. */
  predicate TimesFit(trades: seq<TradeEvent>, n: nat)
    requires n <= |trades| && |trades| > 0
  {
    forall i :: 0 <= i < n ==> trades[i].timestamp - trades[0].timestamp < 65536 * NANOS_PER_MILLI
  }

  function Floored(base: int64, timestamp: int64): int
    requires base <= timestamp
  {
    base + (timestamp - base) / NANOS_PER_MILLI * NANOS_PER_MILLI
  }

  lemma WrapInside(x: int)
    requires MIN64 <= x <= MAX64
    ensures Wrap64(x) == x
  {
  }

  lemma SmallTimeDelta(base: int64, timestamp: int64)
    requires 0 <= timestamp - base < 65536 * NANOS_PER_MILLI
    ensures TimeDelta(base, timestamp) == (timestamp - base) / NANOS_PER_MILLI
    ensures 0 <= TimeDelta(base, timestamp) <= 65535
    ensures DecodedTime(base, TimeDelta(base, timestamp)) == Floored(base, timestamp)
    ensures Floored(base, timestamp) <= timestamp < Floored(base, timestamp) + NANOS_PER_MILLI
  {
    WrapInside(timestamp - base);
    WrapInside(Floored(base, timestamp));
  }

  lemma StepKeepsBaseTime(d: Deltas, t: TradeEvent)
    requires 0 <= t.timestamp - d.baseTime < 65536 * NANOS_PER_MILLI
    ensures Step(d, t).baseTime == d.baseTime
    ensures Step(d, t).times == d.times + [if Parses(t) then TimeDelta(d.baseTime, t.timestamp) else 0]
  {
    SmallTimeDelta(d.baseTime, t.timestamp);
  }

  lemma {:induction false} NoTimeRebase(trades: seq<TradeEvent>, n: nat)
    requires n <= |trades| && |trades| > 0 && trades[0].price.Num?
    requires SortedByTime(trades) && TimesFit(trades, n)
    ensures var d := Run(trades, n);
            && d.baseTime == trades[0].timestamp && |d.times| == n
            && forall i :: 0 <= i < n ==>
                 d.times[i] == if Parses(trades[i]) then TimeDelta(trades[0].timestamp, trades[i].timestamp) else 0
  {
    if n > 0 {
      NoTimeRebase(trades, n - 1);
      StepKeepsBaseTime(Run(trades, n - 1), trades[n - 1]);
    }
  }

  lemma {:induction false} BaseIsSomeTime(trades: seq<TradeEvent>, n: nat) returns (j: nat)
    requires 0 < n <= |trades| && AllParse(trades)
    ensures j < n && |Run(trades, n).times| == n
    ensures Run(trades, n).baseTime == trades[j].timestamp && Run(trades, n).times[j] == 0
  {
    RunShape(trades, n - 1);
    var d := Run(trades, n - 1);
    if n == 1 {
      j := 0;
      WrapInside(0);
    } else if TimeDelta(d.baseTime, trades[n - 1].timestamp) > 65535 {
      j := n - 1;
    } else {
      j := BaseIsSomeTime(trades, n - 1);
      assert Run(trades, n).times[j] == d.times[j];
    }
  }

  lemma DecodedTimeBound(base: int64, delta: int)
    requires 0 <= delta < 0x1_0000
    ensures DecodedTime(base, delta) <= base + delta * NANOS_PER_MILLI
    ensures delta == 0 ==> DecodedTime(base, delta) == base
  {
  }

  /** A stamp out of reach leaves some trade that decodes to a wrong time. */
  lemma LateTimeLosesOne(trades: seq<TradeEvent>, n: nat) returns (j: nat)
    requires 0 < n <= |trades| && AllParse(trades)
    requires SortedByTime(trades) && !TimesFit(trades, n)
    ensures j < n && |Run(trades, n).times| == n
    ensures !TimeClose(trades[j], DecodedTime(Run(trades, n).baseTime, Run(trades, n).times[j]))
  {
    RunShape(trades, n);
    RunShape(trades, n - 1);
    var k := BaseIsSomeTime(trades, n);
    var d := Run(trades, n);
    DecodedTimeBound(d.baseTime, 0);
    if trades[k].timestamp > trades[0].timestamp {
      j := FirstTimeIsLate(trades, n);
    } else {
      j :| 0 <= j < n && trades[j].timestamp - trades[0].timestamp >= 65536 * NANOS_PER_MILLI;
      DecodedTimeBound(d.baseTime, d.times[j]);
    }
  }

  /** If the base moved past the first stamp, the first trade decodes too late. */
  lemma FirstTimeIsLate(trades: seq<TradeEvent>, n: nat) returns (j: nat)
    requires 0 < n <= |trades| && AllParse(trades)
    requires SortedByTime(trades) && Run(trades, n).baseTime > trades[0].timestamp
    ensures j < n && |Run(trades, n).times| == n
    ensures !TimeClose(trades[j], DecodedTime(Run(trades, n).baseTime, Run(trades, n).times[j]))
  {
    RunShape(trades, n);
    FirstDeltaIsZero(trades, n);
    j := 0;
    DecodedTimeBound(Run(trades, n).baseTime, 0);
  }

  lemma FirstDeltaIsZero(trades: seq<TradeEvent>, n: nat)
    requires 0 < n <= |trades| && Parses(trades[0])
    ensures |Run(trades, n).times| == n && Run(trades, n).times[0] == 0
  {
    RunShape(trades, n);
    RunExtends(trades, 1, n);
    WrapInside(0);
    assert Run(trades, 0).times == [];
    assert Run(trades, 1).times[0] == 0;
  }
}
