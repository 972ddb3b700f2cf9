/** Starting a collection: everything the buffer holds around the trigger, filtered by symbol. */
module TaskManagers {
  import opened Trades
  import opened TimeIndex
  import opened HotCache
  import opened CircularTradeBuffers
  import opened CollectionEvents

  const TWENTY_SECONDS: int := 20 * NANOS_PER_SECOND

  datatype StartResult = Started(event: CollectionEvent, totalExtracted: nat) | AlreadyActive(symbol: string)

  function Targets(symbol: string): TradeEvent -> bool {
    (t: TradeEvent) => IsTargetSymbol(symbol, t.symbol)
  }

  lemma {:induction false} FilterKeepsOrder<T>(a: seq<T>, b: seq<T>, p: T -> bool)
    requires Subsequence(a, b)
    ensures Subsequence(Filter(a, p), Filter(b, p))
    decreases |b|
  {
    if a != [] {
      var n := |b| - 1;
      if a[|a| - 1] == b[n] && Subsequence(a[..|a| - 1], b[..n]) {
        FilterKeepsOrder(a[..|a| - 1], b[..n], p);
        if p(b[n]) {
          SubsequenceReflexive([b[n]]);
          SubsequenceConcat(Filter(a[..|a| - 1], p), Filter(b[..n], p), [b[n]], [b[n]]);
        } else {
          assert Filter(a[..|a| - 1], p) + [] == Filter(a[..|a| - 1], p);
          assert Filter(b[..n], p) + [] == Filter(b[..n], p);
        }
      } else {
        FilterKeepsOrder(a, b[..n], p);
        SubsequenceConcat(Filter(a, p), Filter(b[..n], p), [], if p(b[n]) then [b[n]] else []);
        assert Filter(a, p) + [] == Filter(a, p);
      }
    }
  }

  lemma MarketKeyIndex(i: nat)
    requires i < 12
    ensures KeyIndex(EXCHANGE_MARKETS[i]) == i
  {}

  /** A slice of a collection against the flat log: an ordered part of the matching trades of the
      40 seconds, and all of them unless a hot-cache entry answered without covering the range. */
  ghost predicate IsFilteredLog(slice: seq<TradeEvent>, symbol: string, b: CircularTradeBuffer, exchange: string,
                                startNano: int64, endNano: int64, now: int64)
    reads b
  {
    var wanted := Filter(FlatAnswer(b.log, exchange, startNano, endNano), Targets(symbol));
    && Subsequence(slice, wanted)
    && ((HotHit(b.hotCache, exchange, startNano, endNano, now) ==>
           exchange in b.refreshes && Sensible(b.refreshes[exchange])
           && Covered(b.log, exchange, b.refreshes[exchange], startNano, endNano))
        ==> slice == wanted)
  }

  class EnhancedTaskManager {
    const circularBuffer: CircularTradeBuffer
    var currentCollection: CollectionEvent?

    constructor (circularBuffer: CircularTradeBuffer)
      ensures this.circularBuffer == circularBuffer && currentCollection == null
    {
      this.circularBuffer, currentCollection := circularBuffer, null;
    }

    method ExtractMarket(event: CollectionEvent, i: nat, startNano: int64, endNano: int64, now: int64)
      returns (extracted: nat)
      requires circularBuffer.Valid() && i < 12 && event.Slice(i) == []
      requires SimpleQuery(startNano, endNano)
      requires {event} !! {circularBuffer}
      modifies event
      ensures forall k: nat :: k != i ==> event.Slice(k) == old(event.Slice(k))
      ensures event.GetTotalTradeCount() == old(event.GetTotalTradeCount()) + extracted
      ensures extracted == |event.Slice(i)|
      ensures circularBuffer.closed ==> event.Slice(i) == []
      ensures !circularBuffer.closed ==>
                IsFilteredLog(event.Slice(i), event.symbol, circularBuffer, EXCHANGE_MARKETS[i], startNano, endNano, now)
    {
      extracted := 0;
      var exchangeKey := EXCHANGE_MARKETS[i];
      MarketKeyIndex(i);
      var answer := circularBuffer.GetTradeEvents(exchangeKey, startNano, endNano, now);
      if answer.Ok? {
        var trades := answer.value;
        ghost var flat := FlatAnswer(circularBuffer.log, exchangeKey, startNano, endNano);
        FilterKeepsOrder(trades, flat, Targets(event.symbol));
        extracted := AddTargets(event, i, trades);
      }
    }

    method AddTargets(event: CollectionEvent, i: nat, trades: seq<TradeEvent>) returns (count: nat)
      requires i < 12 && event.Slice(i) == []
      modifies event
      ensures forall k: nat :: k != i ==> event.Slice(k) == old(event.Slice(k))
      ensures event.Slice(i) == Filter(trades, Targets(event.symbol))
      ensures count == |event.Slice(i)| && event.GetTotalTradeCount() == old(event.GetTotalTradeCount()) + count
    {
      count := 0;
      MarketKeyIndex(i);
      for j := 0 to |trades|
        invariant forall k: nat :: k != i ==> event.Slice(k) == old(event.Slice(k))
        invariant event.Slice(i) == Filter(trades[..j], Targets(event.symbol))
        invariant count == |event.Slice(i)| && event.GetTotalTradeCount() == old(event.GetTotalTradeCount()) + count
      {
        FilterSnoc(trades[..j], trades[j], Targets(event.symbol));
        assert trades[..j + 1] == trades[..j] + [trades[j]];
        if IsTargetSymbol(event.symbol, trades[j].symbol) {
          event.AddTradeFromBuffer(EXCHANGE_MARKETS[i], trades[j]);
          count := count + 1;
        }
      }
      assert trades[..|trades|] == trades;
    }

    /** The extraction of one listing. The clock is read afresh for each market. */
    method StartDataCollection(symbol: string, triggerTime: int64, clock: seq<int64>) returns (r: StartResult)
      requires circularBuffer.Valid() && |clock| == 12
      requires NANO_THRESHOLD < triggerTime - TWENTY_SECONDS && triggerTime + TWENTY_SECONDS <= MAX64
      ensures circularBuffer.Valid()
      ensures r.AlreadyActive? <==> currentCollection != null
      ensures r.Started? ==>
                && r.event.symbol == symbol && r.event.triggerTime == triggerTime
                && r.totalExtracted == r.event.GetTotalTradeCount()
                && (circularBuffer.closed ==> r.totalExtracted == 0)
                && (!circularBuffer.closed ==> forall i :: 0 <= i < 12 ==>
                      IsFilteredLog(r.event.Slice(i), symbol, circularBuffer, EXCHANGE_MARKETS[i],
                                    triggerTime - TWENTY_SECONDS, triggerTime + TWENTY_SECONDS, clock[i]))
    {
      hide IsFilteredLog, CollectionEvent.Slice, CollectionEvent.GetTotalTradeCount, CircularTradeBuffer.Valid;
      if currentCollection != null {
        return AlreadyActive(currentCollection.symbol);
      }
      var startTime: int64, endTime: int64 := triggerTime - TWENTY_SECONDS, triggerTime + TWENTY_SECONDS;
      var event := new CollectionEvent(symbol, triggerTime);
      var totalExtracted := 0;
      for i := 0 to 12
        invariant circularBuffer.Valid() && fresh(event)
        invariant totalExtracted == event.GetTotalTradeCount()
        invariant circularBuffer.closed ==> totalExtracted == 0
        invariant forall k: nat :: i <= k ==> event.Slice(k) == []
        invariant !circularBuffer.closed ==> forall k :: 0 <= k < i ==>
          IsFilteredLog(event.Slice(k), symbol, circularBuffer, EXCHANGE_MARKETS[k], startTime, endTime, clock[k])
      {
        var extracted := ExtractMarket(event, i, startTime, endTime, clock[i]);
        totalExtracted := totalExtracted + extracted;
      }
      return Started(event, totalExtracted);
    }
  }
}
