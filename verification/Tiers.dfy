/** The two tiers of one key as values: what a query shows of them, and what becomes of the trades offered
    to them, wherever they are at the moment. */
module Tiers {
  import opened Trades
  import opened Bags
  import opened BinaryFrame
  import opened DeltaCodec
  import opened CodecRoundTrip
  import opened CodecTheorems
  import opened Blocks
  import opened CompressedRings
  import opened Conservation

  // ----- queries -----

  /** What a query takes from the hot tier: its range cut off at the hot boundary. */
  predicate ShownHot(t: TradeEvent, startNano: int64, endNano: int64, hotStart: int64) {
    && endNano > hotStart
    && InRange(t, Millis(if startNano > hotStart then startNano else hotStart), Millis(endNano))
  }

  /** And from the cold tier: the other side of the boundary. */
  predicate ShownCold(t: TradeEvent, startNano: int64, endNano: int64, hotStart: int64) {
    && startNano < hotStart
    && InRange(t, Millis(startNano), Millis(if endNano < hotStart then endNano else hotStart))
  }

  function HotPart(hot: seq<TradeEvent>, startNano: int64, endNano: int64, hotStart: int64): seq<TradeEvent> {
    Filter(hot, (t: TradeEvent) => ShownHot(t, startNano, endNano, hotStart))
  }

  function ColdPart(cold: seq<TradeEvent>, startNano: int64, endNano: int64, hotStart: int64): seq<TradeEvent> {
    Filter(cold, (t: TradeEvent) => ShownCold(t, startNano, endNano, hotStart))
  }

  predicate Wanted(t: TradeEvent, startNano: int64, endNano: int64) {
    InRange(t, Millis(startNano), Millis(endNano))
  }

  lemma MillisMonotone(a: int64, b: int64)
    requires a <= b
    ensures Millis(a) <= Millis(b)
  {
  }

  /** In terms of the stamp: a wanted hot trade is shown unless it lies before the boundary's millisecond
      or the whole query ends at or before the boundary. */
  lemma ShownHotIff(t: TradeEvent, startNano: int64, endNano: int64, hotStart: int64)
    ensures ShownHot(t, startNano, endNano, hotStart) <==>
            Wanted(t, startNano, endNano) && endNano > hotStart && t.timestamp >= Millis(hotStart)
  {
    if startNano <= hotStart {
      MillisMonotone(startNano, hotStart);
    } else {
      MillisMonotone(hotStart, startNano);
    }
  }

  /** A wanted cold trade is shown unless it lies after the boundary's millisecond or the whole query
      starts at or after the boundary. */
  lemma ShownColdIff(t: TradeEvent, startNano: int64, endNano: int64, hotStart: int64)
    ensures ShownCold(t, startNano, endNano, hotStart) <==>
            Wanted(t, startNano, endNano) && startNano < hotStart && t.timestamp <= Millis(hotStart)
  {
    if endNano <= hotStart {
      MillisMonotone(endNano, hotStart);
    } else {
      MillisMonotone(hotStart, endNano);
    }
  }

  /** A query shows everything both tiers hold in its range if and only if every wanted hot trade is at or
      after the boundary's millisecond and the query reaches past it, and every wanted cold trade is at or
      before it and the query starts before it. */
  lemma ReadsEverythingIff(hot: seq<TradeEvent>, cold: seq<TradeEvent>, startNano: int64, endNano: int64, hotStart: int64)
    ensures |HotPart(hot, startNano, endNano, hotStart)| + |ColdPart(cold, startNano, endNano, hotStart)|
            == |InRangeOf(hot, Millis(startNano), Millis(endNano))| + |InRangeOf(cold, Millis(startNano), Millis(endNano))|
            <==>
            && (forall t :: t in hot && Wanted(t, startNano, endNano) ==> endNano > hotStart && t.timestamp >= Millis(hotStart))
            && (forall t :: t in cold && Wanted(t, startNano, endNano) ==> startNano < hotStart && t.timestamp <= Millis(hotStart))
  {
    var h := (t: TradeEvent) => ShownHot(t, startNano, endNano, hotStart);
    var c := (t: TradeEvent) => ShownCold(t, startNano, endNano, hotStart);
    var all := (t: TradeEvent) => InRange(t, Millis(startNano), Millis(endNano));
    forall t: TradeEvent
      ensures h(t) <==> all(t) && endNano > hotStart && t.timestamp >= Millis(hotStart)
      ensures c(t) <==> all(t) && startNano < hotStart && t.timestamp <= Millis(hotStart)
    {
      ShownHotIff(t, startNano, endNano, hotStart);
      ShownColdIff(t, startNano, endNano, hotStart);
    }
    hide Millis, ShownHot, ShownCold;
    FilterShorter(hot, h, all);
    FilterShorter(cold, c, all);
    if (forall t :: t in hot && all(t) ==> h(t)) && (forall t :: t in cold && all(t) ==> c(t)) {
      FilterCongruence(hot, h, all);
      FilterCongruence(cold, c, all);
    }
  }

  /** A hot trade the query wants and does not see: still waiting for its migration. */
  predicate Waiting(t: TradeEvent, startNano: int64, endNano: int64, hotStart: int64) {
    Wanted(t, startNano, endNano) && (t.timestamp < Millis(hotStart) || endNano <= hotStart)
  }

  function WaitingPart(hot: seq<TradeEvent>, startNano: int64, endNano: int64, hotStart: int64): seq<TradeEvent> {
    Filter(hot, (t: TradeEvent) => Waiting(t, startNano, endNano, hotStart))
  }

  /** What the hot tier shows and what it withholds make up what it holds. */
  lemma HotSideMisses(hot: seq<TradeEvent>, startNano: int64, endNano: int64, hotStart: int64)
    ensures multiset(HotPart(hot, startNano, endNano, hotStart)) + multiset(WaitingPart(hot, startNano, endNano, hotStart))
         == multiset(InRangeOf(hot, Millis(startNano), Millis(endNano)))
  {
    var h := (t: TradeEvent) => ShownHot(t, startNano, endNano, hotStart);
    var w := (t: TradeEvent) => Waiting(t, startNano, endNano, hotStart);
    var all := (t: TradeEvent) => InRange(t, Millis(startNano), Millis(endNano));
    forall t: TradeEvent ensures all(t) == (h(t) || w(t)) && !(h(t) && w(t)) {
      ShownHotIff(t, startNano, endNano, hotStart);
    }
    FilterDivided(hot, all, h, w);
  }

  /** The cold trades a query can skip while all of them lie before the boundary: those in the millisecond in
      which it starts, when it starts after the boundary and inside a millisecond. */
  function SkippedPart(cold: seq<TradeEvent>, startNano: int64, endNano: int64, hotStart: int64): seq<TradeEvent> {
    if startNano < hotStart || startNano % NANOS_PER_MILLI == 0 then []
    else InRangeOf(cold, Millis(startNano), Millis(if endNano < startNano then endNano else startNano))
  }

  /** While all cold trades lie before the boundary, what the cold tier shows and what it skips make up what
      it holds. */
  lemma ColdSideMisses(cold: seq<TradeEvent>, startNano: int64, endNano: int64, hotStart: int64)
    requires Before(cold, hotStart)
    ensures multiset(ColdPart(cold, startNano, endNano, hotStart)) + multiset(SkippedPart(cold, startNano, endNano, hotStart))
         == multiset(InRangeOf(cold, Millis(startNano), Millis(endNano)))
  {
    var shown := (t: TradeEvent) => ShownCold(t, startNano, endNano, hotStart);
    var all := (t: TradeEvent) => InRange(t, Millis(startNano), Millis(endNano));
    forall t | t in cold ensures shown(t) == (Wanted(t, startNano, endNano) && startNano < hotStart) {
      ShownColdIff(t, startNano, endNano, hotStart);
    }
    if startNano < hotStart {
      FilterCongruence(cold, shown, all);
    } else {
      FilterNone(cold, shown);
      SkippedIsAll(cold, startNano, endNano, hotStart);
    }
  }

  lemma SkippedIsAll(cold: seq<TradeEvent>, startNano: int64, endNano: int64, hotStart: int64)
    requires Before(cold, hotStart) && startNano >= hotStart
    ensures SkippedPart(cold, startNano, endNano, hotStart) == InRangeOf(cold, Millis(startNano), Millis(endNano))
  {
    var all := (t: TradeEvent) => InRange(t, Millis(startNano), Millis(endNano));
    if startNano % NANOS_PER_MILLI == 0 {
      FilterNone(cold, all);
    } else {
      var hi := Millis(if endNano < startNano then endNano else startNano);
      FilterCongruence(cold, all, (t: TradeEvent) => InRange(t, Millis(startNano), hi));
    }
  }

  /** Just after a migration, arrivals in time order, a query past the boundary misses no hot trade. */
  lemma NothingWaitsAfterPass(hot: seq<TradeEvent>, startNano: int64, endNano: int64, hotStart: int64)
    requires SortedByTime(hot) && (hot != [] ==> hot[0].timestamp >= Millis(hotStart)) && endNano > hotStart
    ensures WaitingPart(hot, startNano, endNano, hotStart) == []
  {
    FilterNone(hot, (t: TradeEvent) => Waiting(t, startNano, endNano, hotStart));
  }

  /** Three inputs on which a query misses a trade in its range: a hot one not yet migrated, a hot one in the
      very millisecond of a boundary the query does not reach, and a cold one in the millisecond it starts in. */
  lemma MissedTrades()
    ensures WaitingPart([TradeAt(1)], 0, 5_000_000, 3_000_000) == [TradeAt(1)]
    ensures WaitingPart([TradeAt(1)], 0, 1_200_000, 1_500_000) == [TradeAt(1)]
    ensures TradeAt(1).timestamp >= Millis(1_500_000)
    ensures Before([TradeAt(1)], 1_200_000) && SkippedPart([TradeAt(1)], 1_500_000, 2_000_000, 1_200_000) == [TradeAt(1)]
  {
    var t := TradeAt(1);
    hide WaitingPart, InRangeOf, Millis;
    SomeMillis();
    WaitingOne(t, 0, 5_000_000, 3_000_000);
    WaitingOne(t, 0, 1_200_000, 1_500_000);
    InRangeOne(t, 1, 1);
  }

  lemma SomeMillis()
    ensures Millis(0) == 0 && Millis(5_000_000) == 5 && Millis(3_000_000) == 3 && Millis(1_200_000) == 1 == Millis(1_500_000)
  {
  }

  lemma WaitingOne(t: TradeEvent, startNano: int64, endNano: int64, hotStart: int64)
    requires Waiting(t, startNano, endNano, hotStart)
    ensures WaitingPart([t], startNano, endNano, hotStart) == [t]
  {
    FilterOne(t, (t: TradeEvent) => Waiting(t, startNano, endNano, hotStart));
  }

  lemma InRangeOne(t: TradeEvent, lo: int, hi: int)
    requires InRange(t, lo, hi)
    ensures InRangeOf([t], lo, hi) == [t]
  {
    FilterOne(t, (t: TradeEvent) => InRange(t, lo, hi));
  }

  lemma FilterOne<T>(t: T, p: T -> bool)
    ensures Filter([t], p) == if p(t) then [t] else []
  {
    assert [t][..0] == [];
  }

  // ----- where the offered trades are -----

  predicate AllPriced(trades: seq<TradeEvent>) {
    forall t :: t in trades ==> t.price.Num?
  }

  predicate Within(a: seq<TradeEvent>, b: seq<TradeEvent>) {
    forall t :: t in a ==> t in b
  }

  /** The trades offered to a key against its tiers, some of them on their way from one to the other.
      None is doubled; none is lost while prices parse; in the codec's regime every identity is there. */
  ghost predicate InTransit(hot: seq<TradeEvent>, moving: seq<TradeEvent>, cold: seq<Block>, log: seq<TradeEvent>,
                            names: seq<string>) {
    && Within(hot, log) && Within(moving, log)
    && |hot| + |moving| + TotalEvents(cold) <= |log| <= MAX32
    && (AllPriced(log) ==> |hot| + |moving| + TotalEvents(cold) == |log|)
    && (InRegime(log, names) ==>
          Identities(hot) + Identities(moving) + Identities(AllHeld(cold)) == Identities(log))
  }

  ghost predicate Accounted(hot: seq<TradeEvent>, cold: seq<Block>, log: seq<TradeEvent>, names: seq<string>) {
    InTransit(hot, [], cold, log, names)
  }

  lemma NothingIdentities()
    ensures Identities([]) == multiset{}
  {
  }

  /** Taking a prefix off the hot queue. */
  lemma TakeOff(hot: seq<TradeEvent>, m: nat, cold: seq<Block>, log: seq<TradeEvent>, names: seq<string>)
    requires m <= |hot| && Accounted(hot, cold, log, names)
    ensures InTransit(hot[m..], hot[..m], cold, log, names)
  {
    hide InRegime, AllPriced, AllHeld, TotalEvents, Bag;
    NothingIdentities();
    assert hot == hot[..m] + hot[m..];
    BagConcat(IdentityOf, hot[..m], hot[m..]);
  }

  lemma LongerLog(log: seq<TradeEvent>, t: TradeEvent, names: seq<string>)
    ensures AllPriced(log + [t]) ==> AllPriced(log)
    ensures InRegime(log + [t], names) ==> InRegime(log, names)
    ensures Identities(log + [t]) == Identities(log) + Identities([t])
  {
    hide Regular, PairFits;
    BagConcat(IdentityOf, log, [t]);
  }

  /** A trade offered to the key is on its way to the cold tier or at the end of the hot queue. */
  lemma Offer(hot: seq<TradeEvent>, cold: seq<Block>, log: seq<TradeEvent>, t: TradeEvent, names: seq<string>)
    requires Accounted(hot, cold, log, names) && |log| < MAX32
    ensures InTransit(hot, [t], cold, log + [t], names)
    ensures Accounted(hot + [t], cold, log + [t], names)
  {
    LongerLog(log, t, names);
    NothingIdentities();
    BagConcat(IdentityOf, hot, [t]);
    assert Identities(hot + [t]) == Identities(hot) + Identities([t]);
    assert Within(hot + [t], log + [t]);
    hide InRegime, AllPriced, AllHeld, TotalEvents, Identities;
    OfferSums(Identities(hot), Identities(AllHeld(cold)), Identities([t]));
  }

  lemma OfferSums<U>(a: multiset<U>, b: multiset<U>, c: multiset<U>)
    ensures (a + multiset{} + b) + c == a + c + b == (a + c) + multiset{} + b
  {
  }

  lemma {:induction false} HeldIsInAllHeld(blocks: seq<Block>, i: nat, t: TradeEvent)
    requires i < |blocks| && t in Held(blocks[i])
    ensures t in AllHeld(blocks)
  {
    hide Held;
    if i < |blocks| - 1 {
      HeldIsInAllHeld(blocks[..|blocks| - 1], i, t);
    }
  }

  lemma {:induction false} AllHeldIsHeld(blocks: seq<Block>, t: TradeEvent) returns (i: nat)
    requires t in AllHeld(blocks)
    ensures i < |blocks| && t in Held(blocks[i])
  {
    hide Held;
    var n := |blocks| - 1;
    if t in Held(blocks[n]) {
      i := n;
    } else {
      i := AllHeldIsHeld(blocks[..n], t);
    }
  }

  lemma GroupIsWithin(trades: seq<TradeEvent>, i: nat, capacity: nat)
    requires capacity > 0
    ensures Within(GroupOf(trades, i, capacity), trades)
  {
    FilterMember(trades, (t: TradeEvent) => Home(t, capacity) == i);
  }

  lemma SlottedParses(b: Block, i: nat, window: nat, capacity: nat)
    requires capacity > 0 && Slotted(b, i, window, capacity)
    ensures AllParse(Held(b))
  {
  }

  /** Trades with parsing prices always arrive. */
  lemma PricedArrives(before: seq<Block>, after: seq<Block>, trades: seq<TradeEvent>, r: Status, window: nat)
    requires Outcome(before, after, trades, r) && InWindow(before, window) && AllPriced(trades)
    ensures r == Done
  {
    hide Held, GroupOf, Slotted, StartsParsed, TotalEvents, AllGrown, AllSettled, SomeStartsBadly;
    forall i | 0 <= i < |before| ensures StartsWell(before[i], GroupOf(trades, i, |before|)) {
      var group := GroupOf(trades, i, |before|);
      SlottedParses(before[i], i, window, |before|);
      GroupIsWithin(trades, i, |before|);
      forall k | 0 <= k < |group| ensures group[k].price.Num? {
        assert group[k] in group;
      }
      ParsingStartsParsed(Held(before[i]), group);
    }
  }

  /** In the regime every block with its group is in the regime: all of it comes from the log. */
  lemma TransitIsInRegime(hot: seq<TradeEvent>, moving: seq<TradeEvent>, cold: seq<Block>, log: seq<TradeEvent>,
                          names: seq<string>)
    requires |cold| > 0 && InTransit(hot, moving, cold, log, names) && InRegime(log, names)
    ensures BlocksInRegime(cold, moving, names)
  {
    assert Identities(AllHeld(cold)) <= Identities(log);
    SubBagIsMirrored(AllHeld(cold), log);
    hide InRegime, AllPriced, Held, AllHeld, TotalEvents, Identities, GroupOf, IdentityOf;
    forall i | 0 <= i < |cold| ensures InRegime(Held(cold[i]) + GroupOf(moving, i, |cold|), names) {
      var all := Held(cold[i]) + GroupOf(moving, i, |cold|);
      GroupIsWithin(moving, i, |cold|);
      forall t | t in all ensures exists u :: u in log && IdentityOf(u) == IdentityOf(t) {
        if t in Held(cold[i]) {
          HeldIsInAllHeld(cold, i, t);
        }
      }
      RegimeByIdentity(all, log, names);
    }
  }

  /** The moving trades reach the cold ring; what the ring refuses is lost, and nothing is while prices parse. */
  lemma Arrive(hot: seq<TradeEvent>, moving: seq<TradeEvent>, before: seq<Block>, after: seq<Block>, log: seq<TradeEvent>,
               names: seq<string>, r: Status, window: nat)
    requires InTransit(hot, moving, before, log, names) && InWindow(before, window)
    requires Outcome(before, after, moving, r)
    ensures Accounted(hot, after, log, names)
  {
    if AllPriced(log) {
      PricedArrives(before, after, moving, r, window);
    }
    if InRegime(log, names) {
      RegimeIsPriced(log, names);
      TransitIsInRegime(hot, moving, before, log, names);
      BatchConservesIdentities(before, after, moving, names);
    }
    NothingIdentities();
    hide InRegime, AllPriced, AllHeld, TotalEvents, Identities, AllGrown, AllSettled, AllStartWell, SomeStartsBadly, InWindow;
    ArriveSums(Identities(hot), Identities(moving), Identities(AllHeld(before)));
  }

  lemma ArriveSums<U>(a: multiset<U>, b: multiset<U>, c: multiset<U>)
    ensures a + multiset{} + (c + b) == a + b + c
  {
  }

  lemma RegimeIsPriced(log: seq<TradeEvent>, names: seq<string>)
    requires InRegime(log, names)
    ensures AllPriced(log)
  {
    hide KnownNames, PairFits, IsWhole;
    forall t | t in log ensures t.price.Num? {
      assert Regular(t, names);
    }
  }

  // ----- where the cold trades stand in time -----

  predicate BlocksBefore(blocks: seq<Block>, nano: int) {
    forall i :: 0 <= i < |blocks| ==> Before(Held(blocks[i]), nano)
  }

  lemma AllHeldBefore(blocks: seq<Block>, nano: int)
    requires BlocksBefore(blocks, nano)
    ensures Before(AllHeld(blocks), nano)
  {
    hide Held, AllHeld;
    forall t: TradeEvent | t in AllHeld(blocks) ensures t.timestamp * NANOS_PER_MILLI < nano {
      var i := AllHeldIsHeld(blocks, t);
      assert Before(Held(blocks[i]), nano);
    }
  }

  /** A block and a group that maps to it, in one window, share a period. */
  lemma OnePeriod(b: Block, group: seq<TradeEvent>, i: nat, window: nat, capacity: nat) returns (p: int)
    requires capacity > 0 && Slotted(b, i, window, capacity) && BatchFits(group, window, capacity)
    requires forall k :: 0 <= k < |group| ==> Home(group[k], capacity) == i
    ensures OfPeriod(Held(b), p) && OfPeriod(group, p)
  {
    if b.isEmpty {
      if group == [] {
        p := 0;
      } else {
        p := Period(group[0].timestamp);
        GroupIsOnePeriod(group, window, capacity);
      }
    } else {
      p := Period(b.startTime);
      forall k | 0 <= k < |group| ensures Period(group[k].timestamp) == p {
        assert Storable(group[k]);
        WrappedIsInjective(Period(group[k].timestamp), p, capacity);
      }
    }
  }

  lemma GrownStaysBefore(before: Block, after: Block, group: seq<TradeEvent>, i: nat, window: nat, capacity: nat, nano: int)
    requires capacity > 0 && Slotted(before, i, window, capacity) && BatchFits(group, window, capacity)
    requires forall k :: 0 <= k < |group| ==> Home(group[k], capacity) == i
    requires Grown(before, after, group) && Before(Held(before), nano) && Before(group, nano)
    ensures Before(Held(after), nano)
  {
    if Held(after) != Held(before) {
      var p := OnePeriod(before, group, i, window, capacity);
      hide Held, Slotted, Merged;
      MergedStaysBefore(Held(before), group, Held(after), p, nano);
    }
  }

  /** No batch of trades before a time brings the ring past it. */
  lemma BatchStaysBefore(before: seq<Block>, after: seq<Block>, trades: seq<TradeEvent>, r: Status, window: nat, nano: int)
    requires Outcome(before, after, trades, r) && InWindow(before, window) && BatchFits(trades, window, |before|)
    requires BlocksBefore(before, nano) && Before(trades, nano)
    ensures BlocksBefore(after, nano)
  {
    hide Held, GroupOf, Slotted, TotalEvents, AllSettled, AllStartWell, SomeStartsBadly, BatchFits, Grown;
    forall i | 0 <= i < |before| ensures Before(Held(after[i]), nano) {
      var group := GroupOf(trades, i, |before|);
      GroupFacts(trades, i, window, |before|);
      GroupIsWithin(trades, i, |before|);
      assert Before(Held(before[i]), nano) && Before(group, nano);
      GrownStaysBefore(before[i], after[i], group, i, window, |before|, nano);
    }
  }
}
