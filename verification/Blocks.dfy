/** Blocks of the cold ring as values: which block a stamp belongs to, what a block may hold,
    and why the overlap test never hides a matching trade. Stamps and block bounds are plain
    numbers; a period is 30e9 of the unit the stamps are in. */
module Blocks {
  import opened Trades
  import opened BinaryFrame
  import opened DeltaCodec
  import opened CodecRoundTrip
  import opened CodecTheorems
  import opened DeltaCompressors

  const BLOCK_DURATION: int := 30_000_000_000

  datatype BlockData = NoData | Data(blob: Blob)

  datatype Block = Block(startTime: int, endTime: int, eventCount: nat, isEmpty: bool, data: BlockData)

  const EMPTY_BLOCK: Block := Block(0, 0, 0, true, NoData)

  /** What a block decodes to. */
  function Held(b: Block): seq<TradeEvent> {
    if b.isEmpty || b.data.NoData? then []
    else
      match Decompressed(b.data.blob)
      case Crash => []
      case Decoded(trades) => trades
  }

  function Period(timestamp: int): int {
    timestamp / BLOCK_DURATION
  }

  /** `p % capacity` for a period, by repeated subtraction. */
  function Wrapped(p: nat, capacity: nat): (i: nat)
    requires capacity > 0
    ensures i < capacity
  {
    if p < capacity then p else Wrapped(p - capacity, capacity)
  }

  lemma {:induction false} WrappedIsModulo(p: nat, capacity: nat)
    requires capacity > 0
    ensures Wrapped(p, capacity) == p % capacity
  {
    if p < capacity {
      ModUnique(p, capacity, 0, p);
    } else {
      WrappedIsModulo(p - capacity, capacity);
      var q := (p - capacity) / capacity;
      AddOneTime(q, capacity);
      ModUnique(p, capacity, q + 1, Wrapped(p, capacity));
    }
  }

  lemma AddOneTime(q: int, m: int)
    ensures (q + 1) * m == q * m + m
  {
  }

  /** Periods less than one lap apart never share a block. */
  lemma {:induction false} WrappedIsInjective(p: nat, q: nat, capacity: nat)
    requires capacity > 0 && p < q + capacity && q < p + capacity
    requires Wrapped(p, capacity) == Wrapped(q, capacity)
    ensures p == q
    decreases p + q
  {
    if p >= capacity && q >= capacity {
      WrappedIsInjective(p - capacity, q - capacity, capacity);
    }
  }

  /** The block a trade belongs to in a ring of that many blocks. */
  function Home(t: TradeEvent, capacity: nat): (i: nat)
    requires capacity > 0
    ensures i < capacity
  {
    if t.timestamp < 0 then 0 else Wrapped(Period(t.timestamp), capacity)
  }

  /** A trade the ring can take: a stamp that is not negative nor at the end of time, a symbol
      the frame can carry. Prices need not parse. */
  predicate Storable(t: TradeEvent) {
    && 0 <= t.timestamp <= MAX64 - BLOCK_DURATION
    && IsByteString(t.symbol) && |t.symbol| <= MAX32
  }

  predicate OfPeriod(trades: seq<TradeEvent>, p: int) {
    forall i :: 0 <= i < |trades| ==> Storable(trades[i]) && Period(trades[i].timestamp) == p
  }

  /** A block in use for period `p`: bounds of that period, only trades of that period. */
  predicate InUse(b: Block, p: int) {
    && !b.isEmpty && p >= 0
    && b.startTime == p * BLOCK_DURATION && b.endTime == b.startTime + BLOCK_DURATION
    && OfPeriod(Held(b), p) && AllParse(Held(b))
    && b.eventCount == |Held(b)|
    && (b.data.Data? ==> Decompressed(b.data.blob).Decoded?)
  }

  /** `after` is the codec's image of `old` and `new` merged and sorted some way. */
  ghost predicate Merged(old_: seq<TradeEvent>, new_: seq<TradeEvent>, after: seq<TradeEvent>) {
    exists sorted: seq<TradeEvent>, unique: seq<string> :: IsMerge(old_, new_, after, sorted, unique)
  }

  ghost predicate IsMerge(old_: seq<TradeEvent>, new_: seq<TradeEvent>, after: seq<TradeEvent>,
                          sorted: seq<TradeEvent>, unique: seq<string>) {
    && multiset(sorted) == multiset(old_) + multiset(new_) && SortedByTime(sorted) && Lists(unique, sorted)
    && |sorted| > 0 && sorted[0].price.Num?
    && after == Image(sorted, unique)
  }

  lemma MergedCounts(old_: seq<TradeEvent>, new_: seq<TradeEvent>, after: seq<TradeEvent>)
    requires Merged(old_, new_, after)
    ensures |after| == |old_| + |new_|
  {
    var sorted, unique :| IsMerge(old_, new_, after, sorted, unique);
    assert |multiset(sorted)| == |multiset(old_)| + |multiset(new_)|;
  }

  // ----- times stay inside the block -----

  lemma PeriodBounds(timestamp: int, p: int)
    requires timestamp >= 0
    ensures Period(timestamp) == p <==> p * BLOCK_DURATION <= timestamp < p * BLOCK_DURATION + BLOCK_DURATION
  {
  }

  /** A period is shorter than the reach of a uint16 delta. */
  lemma PeriodFitsDelta(trades: seq<TradeEvent>, p: int)
    requires |trades| > 0 && OfPeriod(trades, p)
    ensures TimesFit(trades, |trades|)
  {
    forall i | 0 <= i < |trades| ensures trades[i].timestamp - trades[0].timestamp < 65536 * NANOS_PER_MILLI {
      assert OfPeriod([trades[i]], p);
      PeriodBounds(trades[i].timestamp, p);
      PeriodBounds(trades[0].timestamp, p);
    }
  }

  /** Inside one block the base time never moves. */
  lemma NoTimeRebaseInBlock(trades: seq<TradeEvent>, p: int, n: nat)
    requires n < |trades| && trades[0].price.Num? && SortedByTime(trades) && OfPeriod(trades, p)
    ensures Run(trades, n).baseTime == trades[0].timestamp
    ensures TimeDelta(Run(trades, n).baseTime, trades[n].timestamp) <= 65535
  {
    PeriodFitsDelta(trades, p);
    NoTimeRebase(trades, n);
    SmallTimeDelta(trades[0].timestamp, trades[n].timestamp);
  }

  lemma ImageTimeBetween(trades: seq<TradeEvent>, unique: seq<string>, i: nat)
    requires i < |trades| && trades[0].price.Num? && SortedByTime(trades) && TimesFit(trades, |trades|)
    ensures trades[0].timestamp <= Image(trades, unique)[i].timestamp <= trades[i].timestamp
  {
    ImageTime(trades, unique, i);
    NoTimeRebase(trades, |trades|);
    SmallTimeDelta(trades[0].timestamp, trades[i].timestamp);
    DecodedTimeBound(trades[0].timestamp, 0);
  }

  lemma BetweenIsSamePeriod(a: int, x: int, b: int)
    requires 0 <= a <= x <= b && Period(a) == Period(b)
    ensures Period(x) == Period(a)
  {
  }

  /** Decoded trades keep the block's period, and parse. */
  lemma ImageStaysInPeriod(trades: seq<TradeEvent>, unique: seq<string>, p: int)
    requires |trades| > 0 && trades[0].price.Num? && SortedByTime(trades) && OfPeriod(trades, p) && AreByteStrings(unique)
    ensures OfPeriod(Image(trades, unique), p) && AllParse(Image(trades, unique))
  {
    PeriodFitsDelta(trades, p);
    forall i | 0 <= i < |trades|
      ensures Storable(Image(trades, unique)[i]) && Period(Image(trades, unique)[i].timestamp) == p
      ensures Parses(Image(trades, unique)[i])
    {
      ImageTimeBetween(trades, unique, i);
      BetweenIsSamePeriod(trades[0].timestamp, Image(trades, unique)[i].timestamp, trades[i].timestamp);
      ImagePrice(trades, unique, i);
      ImageQuantity(trades, unique, i);
      ImageSymbol(trades, unique, i);
    }
  }

  // ----- the overlap test -----

  predicate Overlaps(b: Block, lo: int, hi: int) {
    b.endTime >= lo && b.startTime <= hi
  }

  function InRangeOf(trades: seq<TradeEvent>, lo: int, hi: int): seq<TradeEvent> {
    Filter(trades, (t: TradeEvent) => InRange(t, lo, hi))
  }

  /** What a query collects from one block. */
  function Contribution(b: Block, lo: int, hi: int): seq<TradeEvent> {
    if b.isEmpty || !Overlaps(b, lo, hi) then [] else InRangeOf(Held(b), lo, hi)
  }

  /** Skipping by bounds is harmless for every query exactly when the held trades lie within
      the closed bounds. */
  lemma PruningIsExactIff(b: Block)
    requires !b.isEmpty
    ensures (forall lo, hi :: Contribution(b, lo, hi) == InRangeOf(Held(b), lo, hi))
            <==> forall t :: t in Held(b) ==> b.startTime <= t.timestamp <= b.endTime
  {
    hide Held;
    if forall t :: t in Held(b) ==> b.startTime <= t.timestamp <= b.endTime {
      forall lo, hi ensures Contribution(b, lo, hi) == InRangeOf(Held(b), lo, hi) {
        if !Overlaps(b, lo, hi) {
          FilterNone(Held(b), (t: TradeEvent) => InRange(t, lo, hi));
        }
      }
    } else {
      var t :| t in Held(b) && !(b.startTime <= t.timestamp <= b.endTime);
      FilterMember(Held(b), (u: TradeEvent) => InRange(u, t.timestamp, t.timestamp));
      assert t in InRangeOf(Held(b), t.timestamp, t.timestamp);
      assert Contribution(b, t.timestamp, t.timestamp) == [];
    }
  }

  lemma InUsePrunesExactly(b: Block, p: int, lo: int, hi: int)
    requires InUse(b, p)
    ensures Contribution(b, lo, hi) == InRangeOf(Held(b), lo, hi)
  {
    forall t | t in Held(b) ensures b.startTime <= t.timestamp <= b.endTime {
      PeriodBounds(t.timestamp, p);
    }
    PruningIsExactIff(b);
  }

  // ----- the whole ring -----

  /** Every trade the ring decodes to, block by block. */
  function AllHeld(blocks: seq<Block>): seq<TradeEvent> {
    if blocks == [] then [] else AllHeld(blocks[..|blocks| - 1]) + Held(blocks[|blocks| - 1])
  }

  function AllContributions(blocks: seq<Block>, lo: int, hi: int): seq<TradeEvent> {
    if blocks == [] then []
    else AllContributions(blocks[..|blocks| - 1], lo, hi) + Contribution(blocks[|blocks| - 1], lo, hi)
  }

  function TotalEvents(blocks: seq<Block>): nat {
    if blocks == [] then 0 else TotalEvents(blocks[..|blocks| - 1]) + blocks[|blocks| - 1].eventCount
  }

  /** Block `i` is unused, or in use for a period of the window that maps to it. */
  predicate Slotted(b: Block, i: nat, window: nat, capacity: nat)
    requires capacity > 0
  {
    if b.isEmpty then b == EMPTY_BLOCK
    else
      var p := Period(b.startTime);
      InUse(b, p) && window <= p < window + capacity && Wrapped(p, capacity) == i
  }

  /** All periods in use lie in one window of `capacity` periods. */
  predicate InWindow(blocks: seq<Block>, window: nat) {
    |blocks| > 0 && forall i :: 0 <= i < |blocks| ==> Slotted(blocks[i], i, window, |blocks|)
  }

  lemma {:induction false} NoBlockHidesATrade(blocks: seq<Block>, n: nat, window: nat, lo: int, hi: int)
    requires n <= |blocks| && InWindow(blocks, window)
    ensures AllContributions(blocks[..n], lo, hi) == InRangeOf(AllHeld(blocks[..n]), lo, hi)
  {
    hide Held, Slotted, Contribution, InRangeOf, AllHeld, AllContributions;
    if n == 0 {
      NothingContributes(lo, hi);
    } else {
      NoBlockHidesATrade(blocks, n - 1, window, lo, hi);
      LastBlock(blocks, n, lo, hi);
      SlottedHidesNothing(blocks[n - 1], n - 1, window, |blocks|, lo, hi);
      InRangeOfConcat(AllHeld(blocks[..n - 1]), Held(blocks[n - 1]), lo, hi);
    }
  }

  lemma NothingContributes(lo: int, hi: int)
    ensures AllContributions([], lo, hi) == InRangeOf(AllHeld([]), lo, hi) == []
  {
  }

  lemma LastBlock(blocks: seq<Block>, n: nat, lo: int, hi: int)
    requires 0 < n <= |blocks|
    ensures AllHeld(blocks[..n]) == AllHeld(blocks[..n - 1]) + Held(blocks[n - 1])
    ensures AllContributions(blocks[..n], lo, hi) == AllContributions(blocks[..n - 1], lo, hi) + Contribution(blocks[n - 1], lo, hi)
  {
    hide Held, Contribution;
    assert blocks[..n][..n - 1] == blocks[..n - 1];
  }

  lemma InRangeOfConcat(a: seq<TradeEvent>, b: seq<TradeEvent>, lo: int, hi: int)
    ensures InRangeOf(a + b, lo, hi) == InRangeOf(a, lo, hi) + InRangeOf(b, lo, hi)
  {
    FilterConcat(a, b, (t: TradeEvent) => InRange(t, lo, hi));
  }

  lemma SlottedHidesNothing(b: Block, i: nat, window: nat, capacity: nat, lo: int, hi: int)
    requires capacity > 0 && Slotted(b, i, window, capacity)
    ensures Contribution(b, lo, hi) == InRangeOf(Held(b), lo, hi)
  {
    if !b.isEmpty {
      InUsePrunesExactly(b, Period(b.startTime), lo, hi);
    }
  }

  lemma {:induction false} TotalAfterUpdate(blocks: seq<Block>, i: nat, b: Block)
    requires i < |blocks|
    ensures TotalEvents(blocks[i := b]) == TotalEvents(blocks) - blocks[i].eventCount + b.eventCount
  {
    var n := |blocks| - 1;
    if i < n {
      TotalAfterUpdate(blocks[..n], i, b);
      assert blocks[i := b][..n] == blocks[..n][i := b];
    } else {
      assert blocks[i := b][..n] == blocks[..n];
    }
  }

  lemma ReplaceInWindow(blocks: seq<Block>, i: nat, b: Block, window: nat)
    requires InWindow(blocks, window) && i < |blocks| && Slotted(b, i, window, |blocks|)
    ensures InWindow(blocks[i := b], window)
  {
    var after := blocks[i := b];
    forall k | 0 <= k < |blocks| ensures Slotted(after[k], k, window, |blocks|) {
      assert Slotted(blocks[k], k, window, |blocks|);
    }
  }

  lemma InUseIsSlotted(b: Block, p: nat, i: nat, window: nat, capacity: nat)
    requires capacity > 0 && InUse(b, p) && window <= p < window + capacity && Wrapped(p, capacity) == i
    ensures Slotted(b, i, window, capacity)
  {
    PeriodBounds(b.startTime, p);
  }

  lemma SlottedCounts(b: Block, i: nat, window: nat, capacity: nat)
    requires capacity > 0 && Slotted(b, i, window, capacity)
    ensures b.eventCount == |Held(b)|
  {
  }

  predicate Counts(b: Block) {
    b.eventCount == |Held(b)|
  }

  lemma {:induction false} CountsAddUp(blocks: seq<Block>)
    requires forall i :: 0 <= i < |blocks| ==> Counts(blocks[i])
    ensures TotalEvents(blocks) == |AllHeld(blocks)|
    ensures forall i :: 0 <= i < |blocks| ==> |Held(blocks[i])| <= TotalEvents(blocks)
  {
    hide Held;
    if blocks != [] {
      var before, last := blocks[..|blocks| - 1], blocks[|blocks| - 1];
      assert Counts(last);
      forall i | 0 <= i < |before| ensures Counts(before[i]) {
        assert Counts(blocks[i]);
      }
      CountsAddUp(before);
      assert TotalEvents(blocks) == TotalEvents(before) + last.eventCount;
      assert AllHeld(blocks) == AllHeld(before) + Held(last);
      hide TotalEvents, AllHeld, Counts;
      forall i | 0 <= i < |blocks| ensures |Held(blocks[i])| <= TotalEvents(blocks) {
        assert i < |before| ==> before[i] == blocks[i];
      }
    }
  }

  /** In a ring of well-formed blocks the event counts are the trades it decodes to. */
  lemma TotalIsHeld(blocks: seq<Block>, window: nat)
    requires InWindow(blocks, window)
    ensures TotalEvents(blocks) == |AllHeld(blocks)|
    ensures forall i :: 0 <= i < |blocks| ==> |Held(blocks[i])| <= TotalEvents(blocks)
  {
    hide Held, Slotted;
    forall i | 0 <= i < |blocks| ensures Counts(blocks[i]) {
      SlottedCounts(blocks[i], i, window, |blocks|);
    }
    CountsAddUp(blocks);
  }

  /** All stamps lie strictly before a time in nanoseconds. */
  predicate Before(trades: seq<TradeEvent>, nano: int) {
    forall t: TradeEvent :: t in trades ==> t.timestamp * NANOS_PER_MILLI < nano
  }

  /** A merge moves no trade to a later time. */
  lemma MergedStaysBefore(old_: seq<TradeEvent>, new_: seq<TradeEvent>, after: seq<TradeEvent>, p: int, nano: int)
    requires Merged(old_, new_, after) && OfPeriod(old_, p) && OfPeriod(new_, p)
    requires Before(old_, nano) && Before(new_, nano)
    ensures Before(after, nano)
  {
    hide Image, Lists;
    var sorted: seq<TradeEvent>, unique: seq<string> :| IsMerge(old_, new_, after, sorted, unique);
    forall i | 0 <= i < |sorted| ensures Storable(sorted[i]) && Period(sorted[i].timestamp) == p
    {
      assert sorted[i] in multiset(sorted) && (sorted[i] in old_ || sorted[i] in new_);
    }
    PeriodFitsDelta(sorted, p);
    forall t: TradeEvent | t in after ensures t.timestamp * NANOS_PER_MILLI < nano {
      var i :| 0 <= i < |after| && after[i] == t;
      ImageTimeBetween(sorted, unique, i);
      assert sorted[i] in multiset(sorted) && (sorted[i] in old_ || sorted[i] in new_);
    }
  }
}
