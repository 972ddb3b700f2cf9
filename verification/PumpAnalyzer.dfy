/** Which windows of a market are reported as pumps. */
module PumpAnalyzer {
  import opened Trades
  import opened TimeWindows

  datatype Settings = Settings(minTradesRequired: nat, minPumpPercentage: real, timeWindowMs: int)

  datatype Market = Market(exchange: string, marketType: string, symbol: string, triggerTimeMs: int)

  datatype PumpEvent = PumpEvent(market: Market, startTime: int, endTime: int, duration: int, startPrice: real,
                                 peakPrice: real, priceChange: real, volume: real, tradeCount: nat,
                                 relativeTimeMs: int)

  datatype Summary = Summary(totalTrades: nat, totalVolume: real, pumpEventsCount: nat,
                             firstTradeTime: int, lastTradeTime: int)

  /** By how many percent b is above a. */
  function Rise(a: real, b: real): real
    requires a > 0.0
  {
    (b - a) / a * 100.0
  }

  predicate Priced(t: TradeEvent, p: real) {
    t.price == Num(p)
  }

  predicate Rises(t: TradeEvent, u: TradeEvent, percent: real) {
    t.price.Num? && u.price.Num? && t.price.v > 0.0 && Rise(t.price.v, u.price.v) >= percent
  }

  /** Enough trades, none with a price that is not positive, and some two prices, in whatever order,
      one above the other by the threshold. */
  predicate IsPump(s: Settings, trades: seq<TradeEvent>) {
    && |trades| >= s.minTradesRequired
    && (forall t :: t in trades && t.price.Num? ==> t.price.v > 0.0)
    && exists t, u :: t in trades && u in trades && Rises(t, u, s.minPumpPercentage)
  }

  /** The event reports the window, its lowest and highest price, and its volume. */
  predicate Describes(e: PumpEvent, m: Market, win: TimeWindow) {
    && e.market == m && e.startTime == win.startTime && e.endTime == win.endTime
    && e.duration == win.endTime - win.startTime && e.relativeTimeMs == win.startTime - m.triggerTimeMs
    && e.tradeCount == |win.trades| && e.volume == Volume(win.trades)
    && (exists t :: t in win.trades && Priced(t, e.startPrice))
    && (exists t :: t in win.trades && Priced(t, e.peakPrice))
    && (forall t :: t in win.trades && t.price.Num? ==> e.startPrice <= t.price.v <= e.peakPrice)
    && e.startPrice > 0.0 && e.priceChange == Rise(e.startPrice, e.peakPrice)
  }

  /** Total quantity of the trades whose quantity parses. */
  function Volume(trades: seq<TradeEvent>): real {
    if trades == [] then 0.0
    else
      var last := trades[|trades| - 1];
      Volume(trades[..|trades| - 1]) + if last.quantity.Num? then last.quantity.v else 0.0
  }

  /** Whether a window is a pump depends on its trades only, not on the order an unstable sort left them in. */
  lemma OrderDoesNotMatter(s: Settings, a: seq<TradeEvent>, b: seq<TradeEvent>)
    requires multiset(a) == multiset(b)
    ensures IsPump(s, a) == IsPump(s, b)
  {
    assert |multiset(a)| == |a| && |multiset(b)| == |b|;
    forall t ensures t in a <==> t in b {
      assert t in a <==> t in multiset(a);
      assert t in b <==> t in multiset(b);
    }
  }

  lemma QuotientBelow(x: real, a: real, r: real)
    requires a > 0.0 && x <= r * a
    ensures x / a <= r
  {}

  lemma ScaleUp(r: real, m: real, a: real)
    requires r >= 0.0 && m <= a
    ensures r * m <= r * a
  {}

  /** The widest rise is from the lowest to the highest price. */
  lemma WidestRise(low: real, high: real, a: real, b: real)
    requires 0.0 < low <= a && low <= b <= high
    ensures Rise(a, b) <= Rise(low, high)
  {
    var r := (high - low) / low;
    assert r * low == high - low;
    ScaleUp(r, low, a);
    QuotientBelow(b - a, a, r);
  }

  /** Lowest and highest of the prices that parse. */
  ghost predicate Extremes(trades: seq<TradeEvent>, low: real, high: real) {
    && (exists t :: t in trades && Priced(t, low))
    && (exists t :: t in trades && Priced(t, high))
    && (forall t :: t in trades && t.price.Num? ==> low <= t.price.v <= high)
  }

  lemma PumpByExtremes(s: Settings, trades: seq<TradeEvent>, low: real, high: real)
    requires Extremes(trades, low, high)
    ensures IsPump(s, trades) <==>
            |trades| >= s.minTradesRequired && low > 0.0 && Rise(low, high) >= s.minPumpPercentage
  {
    hide Rise;
    var l :| l in trades && Priced(l, low);
    var h :| h in trades && Priced(h, high);
    if low > 0.0 {
      forall t, u | t in trades && u in trades && Rises(t, u, s.minPumpPercentage)
        ensures Rise(low, high) >= s.minPumpPercentage
      {
        WidestRise(low, high, t.price.v, u.price.v);
      }
      assert Rises(l, h, s.minPumpPercentage) <==> Rise(low, high) >= s.minPumpPercentage;
    }
  }

  method PricesOf(trades: seq<TradeEvent>) returns (prices: seq<real>, volume: real)
    ensures volume == Volume(trades)
    ensures forall p :: p in prices ==> exists t :: t in trades && Priced(t, p)
    ensures forall t :: t in trades && t.price.Num? ==> t.price.v in prices
  {
    prices, volume := [], 0.0;
    for i := 0 to |trades|
      invariant volume == Volume(trades[..i])
      invariant forall p :: p in prices ==> exists t :: t in trades && Priced(t, p)
      invariant forall k :: 0 <= k < i && trades[k].price.Num? ==> trades[k].price.v in prices
    {
      assert trades[..i + 1][..i] == trades[..i];
      var trade := trades[i];
      if trade.price.Num? {
        assert Priced(trade, trade.price.v);
        prices := prices + [trade.price.v];
      }
      if trade.quantity.Num? {
        volume := volume + trade.quantity.v;
      }
    }
    assert trades[..|trades|] == trades;
  }

  method AnalyzeTimeWindow(s: Settings, m: Market, win: TimeWindow) returns (r: Option<PumpEvent>)
    ensures r.Some? <==> IsPump(s, win.trades)
    ensures r.Some? ==> Describes(r.value, m, win)
  {
    if |win.trades| < s.minTradesRequired {
      return None;
    }
    var prices, totalVolume := PricesOf(win.trades);
    if |prices| == 0 {
      return None;
    }
    var minPrice, maxPrice := prices[0], prices[0];
    for i := 0 to |prices|
      invariant minPrice in prices && maxPrice in prices
      invariant forall k :: 0 <= k < i ==> minPrice <= prices[k] <= maxPrice
    {
      if prices[i] < minPrice {
        minPrice := prices[i];
      }
      if prices[i] > maxPrice {
        maxPrice := prices[i];
      }
    }
    assert Extremes(win.trades, minPrice, maxPrice) by {
      forall t | t in win.trades && t.price.Num? ensures minPrice <= t.price.v <= maxPrice {
        assert t.price.v in prices;
      }
    }
    PumpByExtremes(s, win.trades, minPrice, maxPrice);
    if minPrice <= 0.0 {
      return None;
    }
    var priceChange := (maxPrice - minPrice) / minPrice * 100.0;
    if priceChange < s.minPumpPercentage {
      return None;
    }
    return Some(PumpEvent(m, win.startTime, win.endTime, win.endTime - win.startTime, minPrice, maxPrice,
                          priceChange, totalVolume, |win.trades|, win.startTime - m.triggerTimeMs));
  }

  /** The windows reported, in order. */
  function Pumps(s: Settings, windows: seq<TimeWindow>): seq<TimeWindow> {
    if windows == [] then []
    else
      var last := windows[|windows| - 1];
      Pumps(s, windows[..|windows| - 1]) + if IsPump(s, last.trades) then [last] else []
  }

  /** The volume of the windows with enough trades. */
  function BusyVolume(s: Settings, windows: seq<TimeWindow>): real {
    if windows == [] then 0.0
    else
      var last := windows[|windows| - 1];
      BusyVolume(s, windows[..|windows| - 1])
      + if |last.trades| >= s.minTradesRequired then Volume(last.trades) else 0.0
  }

  predicate DescribesAll(events: seq<PumpEvent>, m: Market, windows: seq<TimeWindow>) {
    |events| == |windows| && forall i :: 0 <= i < |events| ==> Describes(events[i], m, windows[i])
  }

  method AnalyzeWindows(s: Settings, m: Market, timeWindows: seq<TimeWindow>)
    returns (events: seq<PumpEvent>, totalVolume: real)
    ensures DescribesAll(events, m, Pumps(s, timeWindows))
    ensures totalVolume == BusyVolume(s, timeWindows)
  {
    hide IsPump, Describes, Volume;
    events, totalVolume := [], 0.0;
    for i := 0 to |timeWindows|
      invariant DescribesAll(events, m, Pumps(s, timeWindows[..i]))
      invariant totalVolume == BusyVolume(s, timeWindows[..i])
    {
      assert timeWindows[..i + 1][..i] == timeWindows[..i];
      var window := timeWindows[i];
      if |window.trades| < s.minTradesRequired {
        FewIsNoPump(s, window.trades);
        continue;
      }
      var pumpEvent := AnalyzeTimeWindow(s, m, window);
      if pumpEvent.Some? {
        events := events + [pumpEvent.value];
      }
      var _, quantity := PricesOf(window.trades);
      totalVolume := totalVolume + quantity;
    }
    assert timeWindows[..|timeWindows|] == timeWindows;
  }

  /** One event for each pump window of the sorted trades, in time order, and nothing for too few trades. */
  method AnalyzeExchangeMarket(s: Settings, m: Market, trades: seq<TradeEvent>)
    returns (events: seq<PumpEvent>, summary: Option<Summary>, ghost sorted: seq<TradeEvent>, ghost windows: seq<TimeWindow>)
    requires s.minTradesRequired >= 1 && s.timeWindowMs > 0
    ensures summary.None? <==> |trades| < s.minTradesRequired
    ensures summary.None? ==> events == []
    ensures summary.Some? ==>
              && multiset(sorted) == multiset(trades) && SortedByTime(sorted)
              && windows == Windows(sorted, s.timeWindowMs)
              && (IsGrouping(windows, sorted, s.timeWindowMs) <==> GroupsStartWell(sorted, s.timeWindowMs))
              && ((forall i :: 0 <= i < |trades| ==> trades[i].timestamp >= 0) ==> IsGrouping(windows, sorted, s.timeWindowMs))
              && DescribesAll(events, m, Pumps(s, windows))
    ensures summary.Some? ==>
              && summary.value.totalTrades == |trades| && summary.value.pumpEventsCount == |events|
              && summary.value.totalVolume == BusyVolume(s, windows)
              && (forall i :: 0 <= i < |trades| ==>
                    summary.value.firstTradeTime <= trades[i].timestamp <= summary.value.lastTradeTime)
  {
    events, sorted, windows := [], [], [];
    if |trades| < s.minTradesRequired {
      return events, None, sorted, windows;
    }
    var ordered := SortByTime(trades);
    SortedBounds(trades, ordered);
    hide SortedByTime, IsGrouping, GroupsStartWell, Windows, DescribesAll, Pumps, BusyVolume;
    if forall i :: 0 <= i < |ordered| ==> ordered[i].timestamp >= 0 {
      WindowsAreGrouping(ordered, s.timeWindowMs);
    }
    var timeWindows := CreateTimeWindows(ordered, s.timeWindowMs);
    var totalVolume: real;
    events, totalVolume := AnalyzeWindows(s, m, timeWindows);
    summary := Some(Summary(|trades|, totalVolume, |events|, ordered[0].timestamp, ordered[|ordered| - 1].timestamp));
    sorted, windows := ordered, timeWindows;
  }

  lemma FewIsNoPump(s: Settings, trades: seq<TradeEvent>)
    requires |trades| < s.minTradesRequired
    ensures !IsPump(s, trades)
  {}

  lemma SortedBounds(trades: seq<TradeEvent>, ordered: seq<TradeEvent>)
    requires multiset(ordered) == multiset(trades) && SortedByTime(ordered)
    ensures (forall i :: 0 <= i < |trades| ==> trades[i].timestamp >= 0) ==> forall i :: 0 <= i < |ordered| ==> ordered[i].timestamp >= 0
    ensures |ordered| == |trades|
    ensures forall i :: 0 <= i < |trades| ==>
              ordered[0].timestamp <= trades[i].timestamp <= ordered[|ordered| - 1].timestamp
  {
    assert |multiset(ordered)| == |ordered| && |multiset(trades)| == |trades|;
    forall i | 0 <= i < |ordered| ensures ordered[i] in trades {
      assert ordered[i] in multiset(ordered);
    }
    forall i | 0 <= i < |trades|
      ensures ordered[0].timestamp <= trades[i].timestamp <= ordered[|ordered| - 1].timestamp
    {
      assert trades[i] in multiset(trades) && trades[i] in ordered;
    }
  }
}
