/** The cold ring: blocks decompressed, merged, sorted and recompressed in place. */
module CompressedRings {
  import opened Trades
  import opened BinaryFrame
  import opened DeltaCodec
  import opened CodecRoundTrip
  import opened CodecTheorems
  import opened DeltaCompressors
  import opened Blocks

  datatype Status = Done | Refused

  /** The trades of a batch that go to block `i`. */
  function GroupOf(trades: seq<TradeEvent>, i: nat, capacity: nat): seq<TradeEvent>
    requires capacity > 0
  {
    Filter(trades, (t: TradeEvent) => Home(t, capacity) == i)
  }

  /** Every trade of the batch falls into the window of periods. */
  predicate BatchFits(trades: seq<TradeEvent>, window: nat, capacity: nat) {
    forall i :: 0 <= i < |trades| ==>
      Storable(trades[i]) && window <= Period(trades[i].timestamp) < window + capacity
  }

  /** A trade no other trade of the list is older than. */
  predicate IsEarliest(t: TradeEvent, trades: seq<TradeEvent>) {
    t in trades && forall u :: u in trades ==> t.timestamp <= u.timestamp
  }

  /** Whichever of the earliest trades a sort puts first, its price parses. */
  predicate StartsParsed(trades: seq<TradeEvent>) {
    forall t :: t in trades && IsEarliest(t, trades) ==> t.price.Num?
  }

  /** Whichever it puts first, its price does not. */
  predicate StartsUnparsed(trades: seq<TradeEvent>) {
    forall t :: t in trades && IsEarliest(t, trades) ==> t.price.NotANumber?
  }

  /** What storing `group` may make of a block: the merge, or at most a fresh header. The price of the
      earliest merged trade decides. */
  ghost predicate StoredInto(before: Block, after: Block, group: seq<TradeEvent>, r: Status) {
    && !after.isEmpty
    && (!before.isEmpty ==> after.startTime == before.startTime)
    && (Merged(Held(before), group, Held(after)) || Held(after) == Held(before))
    && (r == Done ==> Merged(Held(before), group, Held(after)))
    && (StartsParsed(Held(before) + group) ==> r == Done)
    && (StartsUnparsed(Held(before) + group) ==> r == Refused && Held(after) == Held(before))
  }

  lemma SortedFirstIsEarliest(sorted: seq<TradeEvent>, trades: seq<TradeEvent>)
    requires sorted != [] && SortedByTime(sorted) && multiset(sorted) == multiset(trades)
    ensures IsEarliest(sorted[0], trades)
  {
    assert sorted[0] in multiset(sorted);
    forall u | u in trades ensures sorted[0].timestamp <= u.timestamp {
      assert u in multiset(trades) && u in sorted;
    }
  }

  /** When every price parses, so does the first. */
  lemma ParsingStartsParsed(held: seq<TradeEvent>, group: seq<TradeEvent>)
    requires AllParse(held) && forall i :: 0 <= i < |group| ==> group[i].price.Num?
    ensures StartsParsed(held + group)
  {
  }

  /** A block as the first lines of a store leave it. */
  function Opened(b: Block, timestamp: int): Block
    requires timestamp >= 0
  {
    if b.isEmpty then
      var start := Period(timestamp) * BLOCK_DURATION;
      Block(start, start + BLOCK_DURATION, 0, false, NoData)
    else b
  }

  lemma OpenedIsInUse(b: Block, i: nat, t: TradeEvent, window: nat, capacity: nat)
    requires capacity > 0 && Slotted(b, i, window, capacity)
    requires Storable(t) && window <= Period(t.timestamp) < window + capacity
    requires Home(t, capacity) == i
    ensures InUse(Opened(b, t.timestamp), Period(t.timestamp)) && Held(Opened(b, t.timestamp)) == Held(b)
    ensures Slotted(Opened(b, t.timestamp), i, window, capacity)
  {
    var p := Period(t.timestamp);
    PeriodBounds(p * BLOCK_DURATION, p);
    if !b.isEmpty {
      WrappedIsInjective(p, Period(b.startTime), capacity);
    }
  }

  lemma HeldOfFrame(b: Block, sorted: seq<TradeEvent>, unique: seq<string>)
    requires 0 < |sorted| <= MAX32 && sorted[0].price.Num? && WellNamed(unique)
    requires !b.isEmpty && b.data == Data(EncodeFrame(Encode(sorted, unique), unique))
    ensures Decompressed(b.data.blob).Decoded? && Held(b) == Image(sorted, unique)
  {
    BytesRoundTrip(sorted, unique);
  }

  /** Merging trades of the block's own period keeps the block in use for it. */
  lemma MergeStaysInUse(b: Block, p: int, group: seq<TradeEvent>, sorted: seq<TradeEvent>, unique: seq<string>, after: Block)
    requires InUse(b, p) && OfPeriod(group, p)
    requires 0 < |sorted| <= MAX32 && multiset(sorted) == multiset(Held(b) + group) && SortedByTime(sorted)
    requires sorted[0].price.Num? && Lists(unique, sorted) && WellNamed(unique)
    requires after == b.(data := Data(EncodeFrame(Encode(sorted, unique), unique)), eventCount := |sorted|)
    ensures InUse(after, p) && Merged(Held(b), group, Held(after))
  {
    hide Held, Decompressed, Image, EncodeFrame, Encode, AreByteStrings, SortedByTime, Storable, Period, AllParse, Lists;
    SameMultisetSameFacts(Held(b) + group, sorted, p);
    HeldOfFrame(after, sorted, unique);
    ImageStaysInPeriod(sorted, unique, p);
    MultisetConcat(Held(b), group);
    assert IsMerge(Held(b), group, Held(after), sorted, unique);
  }

  class CompressedRing {
    const blocks: array<Block>
    const capacity: nat
    const compressor: DeltaCompressor
    var closed: bool

    ghost predicate Valid(window: nat)
      reads this, blocks
    {
      blocks.Length == capacity > 0 && InWindow(blocks[..], window)
    }

    constructor (capacity: nat)
      requires capacity > 0
      ensures fresh(blocks) && fresh(compressor) && this.capacity == capacity && !closed
      ensures forall window :: Valid(window)
      ensures AllHeld(blocks[..]) == []
    {
      this.capacity := capacity;
      blocks := new Block[capacity](_ => EMPTY_BLOCK);
      compressor := new DeltaCompressor();
      closed := false;
      new;
      NothingHeld(blocks[..]);
    }

    method GetBlockIndex(timestamp: int64) returns (i: nat)
      requires capacity > 0 && timestamp >= 0
      ensures i == Wrapped(Period(timestamp), capacity) < capacity
    {
      WrappedIsModulo(Period(timestamp), capacity);
      i := GoDiv(timestamp, BLOCK_DURATION) % capacity;
    }

    /** Opens the block if it is unused. */
    method OpenBlock(i: nat, first: TradeEvent, ghost window: nat)
      requires Valid(window) && i < capacity && Storable(first)
      requires window <= Period(first.timestamp) < window + capacity && Home(first, capacity) == i
      modifies blocks
      ensures Valid(window) && blocks[..] == old(blocks[..])[i := Opened(old(blocks[i]), first.timestamp)]
      ensures InUse(blocks[i], Period(first.timestamp)) && Held(blocks[i]) == old(Held(blocks[i]))
      ensures blocks[i].eventCount == old(blocks[i].eventCount)
    {
      assert Slotted(blocks[i], i, window, capacity);
      OpenedIsInUse(blocks[i], i, first, window, capacity);
      if blocks[i].isEmpty {
        var start := GoDiv(first.timestamp, BLOCK_DURATION) * BLOCK_DURATION;
        blocks[i] := Block(start, start + BLOCK_DURATION, 0, false, NoData);
      }
      assert blocks[..] == old(blocks[..])[i := Opened(old(blocks[i]), first.timestamp)];
    }

    /** Decompress, merge, sort, recompress. Fails without touching the block when the earliest
        merged price does not parse, and may fail after storing when only the metadata pass
        meets such a price first. */
    method CompressAndStoreInBlock(i: nat, trades: seq<TradeEvent>, ghost p: nat) returns (r: Status)
      requires blocks.Length == capacity && i < capacity && |trades| > 0
      requires InUse(blocks[i], p) && OfPeriod(trades, p) && |Held(blocks[i])| + |trades| <= MAX32
      modifies blocks, compressor
      ensures blocks[..] == old(blocks[..])[i := blocks[i]]
      ensures InUse(blocks[i], p)
      ensures StoredInto(old(blocks[i]), blocks[i], trades, r)
    {
      hide Held, Image, Decompressed, Period, EncodeFrame, Encode, Merged, AllParse, InWindow;
      ghost var before := blocks[i];
      var allTrades := ReadBlock(i);
      allTrades := allTrades + trades;
      ghost var unsorted := allTrades;
      allTrades := SortByTime(allTrades);
      SameMultisetSameFacts(unsorted, allTrades, p);
      var compressedData, sorted, unique := compressor.Compress(allTrades);
      assert blocks[..] == old(blocks[..])[i := before];
      SortedFirstIsEarliest(sorted, unsorted);
      if compressedData.Failed? {
        return Refused;
      }
      blocks[i] := blocks[i].(data := Data(compressedData.data), eventCount := |allTrades|);
      MergeStaysInUse(before, p, trades, sorted, unique, blocks[i]);
      assert blocks[..] == old(blocks[..])[i := blocks[i]];
      SortedFirstIsEarliest(allTrades, unsorted);
      if allTrades[0].price.NotANumber? {
        return Refused;
      }
      return Done;
    }

    /** Room left for `n` more trades in every block, counted as the frame counts. */
    ghost predicate Roomy(n: nat)
      reads this, blocks
    {
      forall i :: 0 <= i < blocks.Length ==> |Held(blocks[i])| + n <= MAX32
    }

    /** Opens the block of a group if need be and merges the group into it. */
    method StoreGroup(i: nat, group: seq<TradeEvent>, ghost window: nat) returns (r: Status)
      requires Valid(window) && i < capacity && group != [] && BatchFits(group, window, capacity)
      requires forall k :: 0 <= k < |group| ==> Home(group[k], capacity) == i
      requires |Held(blocks[i])| + |group| <= MAX32
      modifies blocks, compressor
      ensures Valid(window) && blocks[..] == old(blocks[..])[i := blocks[i]]
      ensures StoredInto(old(blocks[i]), blocks[i], group, r)
      ensures old(blocks[i].eventCount) == |old(Held(blocks[i]))| && blocks[i].eventCount == |Held(blocks[i])|
    {
      hide Decompressed, Image, StartsParsed, StartsUnparsed;
      assert Storable(group[0]);
      assert Slotted(blocks[i], i, window, capacity);
      ghost var before, p := blocks[..], Period(group[0].timestamp);
      OpenBlock(i, group[0], window);
      GroupIsOnePeriod(group, window, capacity);
      r := CompressAndStoreInBlock(i, group, p);
      assert blocks[..] == before[i := blocks[i]];
      InUseIsSlotted(blocks[i], p, i, window, capacity);
      ReplaceInWindow(before, i, blocks[i], window);
    }

    /** A single late trade goes to its block. */
    method Store(trade: TradeEvent, ghost window: nat) returns (r: Status)
      requires Valid(window) && BatchFits([trade], window, capacity) && Roomy(1)
      modifies blocks, compressor
      ensures Valid(window)
      ensures closed ==> r == Refused && blocks[..] == old(blocks[..])
      ensures !closed ==>
        var i := Home(trade, capacity);
        && blocks[..] == old(blocks[..])[i := blocks[i]]
        && StoredInto(old(blocks[i]), blocks[i], [trade], r)
        && Outcome(old(blocks[..]), blocks[..], [trade], r)
    {
      if closed {
        return Refused;
      }
      assert Storable([trade][0]);
      var i := GetBlockIndex(trade.timestamp);
      assert Slotted(blocks[i], i, window, capacity);
      ghost var before := blocks[..];
      r := StoreGroup(i, [trade], window);
      SingleOutcome(before, i, blocks[i], trade, r);
    }

    /** A migrated batch is split by block and merged group by group, in any order, until a group fails.
        It all arrives when every merged group starts with a parsing price; when some group starts with
        an unparseable one, at least that group is lost. */
    method CompressAndStore(trades: seq<TradeEvent>, ghost window: nat) returns (r: Status)
      requires Valid(window) && BatchFits(trades, window, capacity) && Roomy(|trades|)
      modifies blocks, compressor
      ensures Valid(window)
      ensures closed ==> r == Refused && blocks[..] == old(blocks[..])
      ensures !closed ==> Outcome(old(blocks[..]), blocks[..], trades, r)
    {
      if closed {
        return Refused;
      }
      var groups := GroupByBlock(trades, window);
      StartOfProgress(blocks[..], trades, groups);
      r := StoreGroups(trades, groups, window);
    }

    /** The loop over the groups, in the arbitrary order of a map. */
    method StoreGroups(trades: seq<TradeEvent>, groups: map<nat, seq<TradeEvent>>, ghost window: nat) returns (r: Status)
      requires Valid(window) && BatchFits(trades, window, capacity) && Roomy(|trades|)
      requires AreGroups(groups, trades, capacity)
      requires Pending(blocks[..], blocks[..], trades, groups.Keys)
      modifies blocks, compressor
      ensures Valid(window)
      ensures Outcome(old(blocks[..]), blocks[..], trades, r)
    {
      ghost var before := blocks[..];
      assert forall i :: 0 <= i < |before| ==> |Held(before[i])| + |trades| <= MAX32;
      hide Held, Pending, InUse, Slotted, InWindow, Outcome, GroupOf, BatchFits;
      var todo := groups.Keys;
      while todo != {}
        invariant todo <= groups.Keys && Valid(window)
        invariant Pending(before, blocks[..], trades, todo)
        decreases |todo|
      {
        var i :| i in todo;
        assert GroupIs(groups, trades, i, capacity);
        assert i < capacity by { GroupHome(trades, i, capacity); }
        var status := StoreNext(i, groups[i], trades, before, todo, window);
        if status == Refused {
          return Refused;
        }
        todo := todo - {i};
      }
      AllGroupsStored(before, blocks[..], trades);
      return Done;
    }

    /** One turn of the loop. */
    method StoreNext(i: nat, group: seq<TradeEvent>, ghost trades: seq<TradeEvent>, ghost before: seq<Block>,
                     ghost todo: set<nat>, ghost window: nat) returns (r: Status)
      requires Valid(window) && i < capacity == |before| && i in todo
      requires BatchFits(trades, window, capacity) && |Held(before[i])| + |trades| <= MAX32
      requires group == GroupOf(trades, i, capacity) != []
      requires Pending(before, blocks[..], trades, todo)
      modifies blocks, compressor
      ensures Valid(window)
      ensures r == Done ==> Pending(before, blocks[..], trades, todo - {i})
      ensures r == Refused ==> Outcome(before, blocks[..], trades, Refused)
    {
      ghost var now := blocks[..];
      PendingIsUntouched(before, now, trades, todo, i);
      GroupFacts(trades, i, window, capacity);
      hide Held, Pending, InUse, Slotted, InWindow, Outcome, GroupOf, BatchFits, StoredInto;
      r := StoreGroup(i, group, window);
      if r == Refused {
        LostGroups(before, now, trades, todo, i, blocks[i]);
      } else {
        PendingStep(before, now, trades, todo, i, blocks[i]);
      }
    }

    method GroupByBlock(trades: seq<TradeEvent>, ghost window: nat) returns (groups: map<nat, seq<TradeEvent>>)
      requires capacity > 0 && BatchFits(trades, window, capacity)
      ensures AreGroups(groups, trades, capacity)
      ensures forall i :: 0 <= i < |trades| ==> Home(trades[i], capacity) in groups
    {
      groups := map[];
      for k := 0 to |trades|
        invariant AreGroups(groups, trades[..k], capacity)
        invariant forall i :: 0 <= i < k ==> Home(trades[i], capacity) in groups
      {
        var trade := trades[k];
        assert Storable(trade);
        var blockIndex := GetBlockIndex(trade.timestamp);
        var grown := groups[blockIndex := (if blockIndex in groups then groups[blockIndex] else []) + [trade]];
        var next := trades[..k + 1];
        assert next == trades[..k] + [trade];
        forall i: nat ensures GroupIs(grown, next, i, capacity) {
          assert GroupIs(groups, trades[..k], i, capacity);
          FilterSnoc(trades[..k], trade, (t: TradeEvent) => Home(t, capacity) == i);
        }
        groups := grown;
      }
      assert trades[..|trades|] == trades;
    }

    /** The trades of a block; nothing when it holds no data yet. */
    method ReadBlock(i: nat) returns (trades: seq<TradeEvent>)
      requires blocks.Length == capacity && i < capacity
      ensures trades == Held(blocks[i])
    {
      if blocks[i].isEmpty || blocks[i].data.NoData? {
        return [];
      }
      var decoded := compressor.Decompress(blocks[i].data.blob);
      return if decoded.Decoded? then decoded.trades else [];
    }

    /** Blocks are visited in array order, those that cannot overlap are skipped, and the
        hits are sorted: the answer is the sorted filter of everything the ring decodes to. */
    method GetRange(startNano: int64, endNano: int64, ghost window: nat) returns (r: Status, result: seq<TradeEvent>)
      requires Valid(window)
      ensures r == if closed then Refused else Done
      ensures !closed ==>
        && multiset(result) == multiset(InRangeOf(AllHeld(blocks[..]), Millis(startNano), Millis(endNano)))
        && SortedByTime(result)
    {
      result := [];
      if closed {
        return Refused, [];
      }
      var startTimestamp, endTimestamp := Millis(startNano), Millis(endNano);
      for i := 0 to capacity
        invariant result == AllContributions(blocks[..i], startTimestamp, endTimestamp)
      {
        assert blocks[..i + 1][..i] == blocks[..i];
        if !blocks[i].isEmpty && blocks[i].endTime >= startTimestamp && blocks[i].startTime <= endTimestamp {
          var blockTrades := ReadBlock(i);
          var hits := SelectRange(blockTrades, startTimestamp, endTimestamp);
          result := result + hits;
        }
      }
      assert blocks[..][..capacity] == blocks[..] == blocks[..capacity];
      NoBlockHidesATrade(blocks[..], capacity, window, startTimestamp, endTimestamp);
      result := SortByTime(result);
      return Done, result;
    }
  }

  ghost predicate AreGroups(groups: map<nat, seq<TradeEvent>>, trades: seq<TradeEvent>, capacity: nat)
    requires capacity > 0
  {
    forall i: nat :: GroupIs(groups, trades, i, capacity)
  }

  ghost predicate GroupIs(groups: map<nat, seq<TradeEvent>>, trades: seq<TradeEvent>, i: nat, capacity: nat)
    requires capacity > 0
  {
    (i in groups <==> GroupOf(trades, i, capacity) != []) && (i in groups ==> groups[i] == GroupOf(trades, i, capacity))
  }

  /** Trades whose block is no longer on the list. */
  function Grouped(trades: seq<TradeEvent>, todo: set<nat>, capacity: nat): nat
    requires capacity > 0
  {
    |Filter(trades, (t: TradeEvent) => Home(t, capacity) !in todo)|
  }

  /** Mid-migration: blocks on the list are untouched, the others have their group merged. */
  ghost predicate Progress(before: seq<Block>, now: seq<Block>, trades: seq<TradeEvent>, todo: set<nat>) {
    && |now| == |before| > 0
    && TotalEvents(now) == TotalEvents(before) + Grouped(trades, todo, |before|)
    && forall i :: 0 <= i < |before| ==> Settled(before[i], now[i], GroupOf(trades, i, |before|), i in todo)
  }

  ghost predicate Settled(before: Block, now: Block, group: seq<TradeEvent>, pending: bool) {
    if pending || group == [] then now == before else Merged(Held(before), group, Held(now))
  }

  /** The group is not empty and its merge would start with an unparseable price. */
  predicate StartsBadly(b: Block, group: seq<TradeEvent>) {
    group != [] && StartsUnparsed(Held(b) + group)
  }

  predicate StartsWell(b: Block, group: seq<TradeEvent>) {
    group != [] ==> StartsParsed(Held(b) + group)
  }

  /** Nothing worse than not arriving ever happens to a group. */
  ghost predicate Grown(before: Block, after: Block, group: seq<TradeEvent>) {
    Held(after) == Held(before) || Merged(Held(before), group, Held(after))
  }

  ghost predicate AllGrown(before: seq<Block>, after: seq<Block>, trades: seq<TradeEvent>)
    requires |after| == |before| > 0
  {
    forall i :: 0 <= i < |before| ==> Grown(before[i], after[i], GroupOf(trades, i, |before|))
  }

  /** Every group is merged into its own block, and no other block changes. */
  ghost predicate AllSettled(before: seq<Block>, after: seq<Block>, trades: seq<TradeEvent>)
    requires |after| == |before| > 0
  {
    forall i :: 0 <= i < |before| ==> Settled(before[i], after[i], GroupOf(trades, i, |before|), false)
  }

  predicate AllStartWell(before: seq<Block>, trades: seq<TradeEvent>)
    requires |before| > 0
  {
    forall i :: 0 <= i < |before| ==> StartsWell(before[i], GroupOf(trades, i, |before|))
  }

  predicate SomeStartsBadly(before: seq<Block>, trades: seq<TradeEvent>)
    requires |before| > 0
  {
    exists i :: 0 <= i < |before| && StartsBadly(before[i], GroupOf(trades, i, |before|))
  }

  /** What becomes of a batch. It arrives whole if every group starts well, and loses trades if some
      group starts badly; on distinct stamps one or the other is the case. */
  ghost predicate Outcome(before: seq<Block>, after: seq<Block>, trades: seq<TradeEvent>, r: Status) {
    && |after| == |before| > 0
    && AllGrown(before, after, trades)
    && TotalEvents(after) <= TotalEvents(before) + |trades|
    && (r == Done ==> AllSettled(before, after, trades) && TotalEvents(after) == TotalEvents(before) + |trades|)
    && (AllStartWell(before, trades) ==> r == Done)
    && (SomeStartsBadly(before, trades) ==> r == Refused && TotalEvents(after) < TotalEvents(before) + |trades|)
  }

  /** The earliest trades agree on whether their price parses; distinct stamps always do. */
  predicate Decided(trades: seq<TradeEvent>) {
    forall t, u :: t in trades && u in trades && IsEarliest(t, trades) && IsEarliest(u, trades) ==>
      t.price.Num? == u.price.Num?
  }

  predicate AllDecided(before: seq<Block>, trades: seq<TradeEvent>)
    requires |before| > 0
  {
    forall i :: 0 <= i < |before| ==> Decided(Held(before[i]) + GroupOf(trades, i, |before|))
  }

  /** A batch arrives whole exactly when no group's earliest merged trade has an unparseable price. */
  lemma ArrivesWholeIff(before: seq<Block>, after: seq<Block>, trades: seq<TradeEvent>, r: Status)
    requires Outcome(before, after, trades, r) && AllDecided(before, trades)
    ensures TotalEvents(after) == TotalEvents(before) + |trades| <==> AllStartWell(before, trades)
  {
    if !AllStartWell(before, trades) {
      hide GroupOf, Held, Settled, Grown;
      var i :| 0 <= i < |before| && !StartsWell(before[i], GroupOf(trades, i, |before|));
      assert Decided(Held(before[i]) + GroupOf(trades, i, |before|));
      assert StartsBadly(before[i], GroupOf(trades, i, |before|));
    }
  }

  /** Mid-migration, and every group bound to fail is still on the list. */
  ghost predicate Pending(before: seq<Block>, now: seq<Block>, trades: seq<TradeEvent>, todo: set<nat>) {
    && Progress(before, now, trades, todo)
    && forall i :: 0 <= i < |before| && StartsBadly(before[i], GroupOf(trades, i, |before|)) ==> i in todo
  }

  lemma PendingIsUntouched(before: seq<Block>, now: seq<Block>, trades: seq<TradeEvent>, todo: set<nat>, i: nat)
    requires Pending(before, now, trades, todo) && i < |before| && i in todo
    ensures |now| == |before| && now[i] == before[i]
  {
    assert Settled(before[i], now[i], GroupOf(trades, i, |before|), true);
  }

  lemma PendingStep(before: seq<Block>, now: seq<Block>, trades: seq<TradeEvent>, todo: set<nat>, i: nat, b: Block)
    requires Pending(before, now, trades, todo) && i < |before| && i in todo && now[i] == before[i]
    requires GroupOf(trades, i, |before|) != []
    requires StoredInto(before[i], b, GroupOf(trades, i, |before|), Done)
    requires before[i].eventCount == |Held(before[i])| && b.eventCount == |Held(b)|
    ensures Pending(before, now[i := b], trades, todo - {i})
  {
    assert !StartsBadly(before[i], GroupOf(trades, i, |before|));
    hide StartsBadly, Held, StartsParsed, StartsUnparsed, TotalEvents, GroupOf, Grouped;
    ProgressStep(before, now, trades, todo, i, b);
  }

  lemma StartOfProgress(blocks: seq<Block>, trades: seq<TradeEvent>, groups: map<nat, seq<TradeEvent>>)
    requires |blocks| > 0 && forall i :: 0 <= i < |trades| ==> Home(trades[i], |blocks|) in groups
    requires AreGroups(groups, trades, |blocks|)
    ensures Pending(blocks, blocks, trades, groups.Keys)
  {
    BadGroupsAreListed(blocks, trades, groups);
    GroupedNone(trades, groups.Keys, |blocks|);
    forall i | 0 <= i < |blocks| ensures Settled(blocks[i], blocks[i], GroupOf(trades, i, |blocks|), i in groups.Keys) {
      assert GroupIs(groups, trades, i, |blocks|);
    }
  }

  lemma BadGroupsAreListed(blocks: seq<Block>, trades: seq<TradeEvent>, groups: map<nat, seq<TradeEvent>>)
    requires |blocks| > 0 && AreGroups(groups, trades, |blocks|)
    ensures forall i :: 0 <= i < |blocks| && StartsBadly(blocks[i], GroupOf(trades, i, |blocks|)) ==> i in groups.Keys
  {
    hide GroupOf, StartsUnparsed;
    forall i | 0 <= i < |blocks| && StartsBadly(blocks[i], GroupOf(trades, i, |blocks|)) ensures i in groups.Keys {
      assert GroupIs(groups, trades, i, |blocks|);
    }
  }

  lemma ProgressIsGrowth(before: seq<Block>, now: seq<Block>, trades: seq<TradeEvent>, todo: set<nat>)
    requires Progress(before, now, trades, todo)
    ensures AllGrown(before, now, trades)
  {
    hide GroupOf, Held, Merged, TotalEvents, Grouped;
    forall i | 0 <= i < |before| ensures Grown(before[i], now[i], GroupOf(trades, i, |before|)) {
      assert Settled(before[i], now[i], GroupOf(trades, i, |before|), i in todo);
    }
  }

  /** A batch of one trade concerns its own block only. */
  lemma SingleOutcome(before: seq<Block>, i: nat, b: Block, trade: TradeEvent, r: Status)
    requires i < |before| && Home(trade, |before|) == i
    requires StoredInto(before[i], b, [trade], r)
    requires before[i].eventCount == |Held(before[i])| && b.eventCount == |Held(b)|
    ensures Outcome(before, before[i := b], [trade], r)
  {
    SingleGroups(before, i, trade);
    StoredCount(before, before, i, b, [trade], r);
    OneBlockChanges(before, i, b, [trade], r);
    assert StartsWell(before[i], [trade]) ==> r == Done;
    assert StartsBadly(before[i], [trade]) ==> r == Refused;
    hide AllGrown, AllSettled, AllStartWell, SomeStartsBadly, StartsWell, StartsBadly, StoredInto, TotalEvents, GroupOf;
  }

  lemma OneBlockChanges(before: seq<Block>, i: nat, b: Block, trades: seq<TradeEvent>, r: Status)
    requires i < |before| && StoredInto(before[i], b, trades, r) && trades != []
    requires forall k: nat :: k < |before| ==> GroupOf(trades, k, |before|) == if k == i then trades else []
    ensures AllGrown(before, before[i := b], trades)
    ensures r == Done ==> AllSettled(before, before[i := b], trades)
    ensures AllStartWell(before, trades) ==> StartsWell(before[i], trades)
    ensures SomeStartsBadly(before, trades) ==> StartsBadly(before[i], trades)
  {
    hide Held, Merged, GroupOf, StartsParsed, StartsUnparsed;
    assert Grown(before[i], b, trades) && (r == Done ==> Settled(before[i], b, trades, false));
    hide StoredInto, StartsWell, StartsBadly, Grown, Settled;
    forall k: nat | k < |before| && k != i
      ensures Grown(before[k], before[k], []) && Settled(before[k], before[k], [], false) && !StartsBadly(before[k], [])
    {
      NoGroupNoChange(before[k]);
    }
  }

  lemma NoGroupNoChange(b: Block)
    ensures Grown(b, b, []) && Settled(b, b, [], false) && !StartsBadly(b, []) && StartsWell(b, [])
  {
  }

  lemma SingleGroups(before: seq<Block>, i: nat, trade: TradeEvent)
    requires i < |before| && Home(trade, |before|) == i
    ensures forall k: nat :: k < |before| ==> GroupOf([trade], k, |before|) == if k == i then [trade] else []
  {
    forall k: nat | k < |before| ensures GroupOf([trade], k, |before|) == if k == i then [trade] else [] {
      assert [] + [trade] == [trade];
      FilterSnoc([], trade, (t: TradeEvent) => Home(t, |before|) == k);
    }
  }

  /** The count after one group has been tried on block i. */
  lemma StoredCount(before: seq<Block>, now: seq<Block>, i: nat, b: Block, group: seq<TradeEvent>, r: Status)
    requires i < |before| == |now| && now[i] == before[i] && group != []
    requires StoredInto(before[i], b, group, r)
    requires before[i].eventCount == |Held(before[i])| && b.eventCount == |Held(b)|
    ensures TotalEvents(now[i := b]) <= TotalEvents(now) + if StartsBadly(before[i], group) then 0 else |group|
    ensures r == Done ==> TotalEvents(now[i := b]) == TotalEvents(now) + |group|
  {
    TotalAfterUpdate(now, i, b);
    if Held(b) != Held(before[i]) || r == Done {
      MergedCounts(Held(before[i]), group, Held(b));
    }
  }

  lemma AllGroupsStored(before: seq<Block>, now: seq<Block>, trades: seq<TradeEvent>)
    requires Pending(before, now, trades, {})
    ensures Outcome(before, now, trades, Done)
  {
    GroupedAll(trades, |before|);
    ProgressIsGrowth(before, now, trades, {});
    hide StartsBadly, StartsWell, Settled, Grouped, GroupOf, TotalEvents, AllGrown;
    forall i | 0 <= i < |before| ensures Settled(before[i], now[i], GroupOf(trades, i, |before|), false) {
      assert Settled(before[i], now[i], GroupOf(trades, i, |before|), i in {});
    }
  }

  /** A refusal at group i: the groups still on the list are lost, and i's own unless it was stored. */
  lemma LostGroups(before: seq<Block>, now: seq<Block>, trades: seq<TradeEvent>, todo: set<nat>, i: nat, b: Block)
    requires Pending(before, now, trades, todo) && i < |before| && i in todo && now[i] == before[i]
    requires GroupOf(trades, i, |before|) != []
    requires StoredInto(before[i], b, GroupOf(trades, i, |before|), Refused)
    requires before[i].eventCount == |Held(before[i])| && b.eventCount == |Held(b)|
    ensures Outcome(before, now[i := b], trades, Refused)
  {
    RefusedIsGrowth(before, now, trades, todo, i, b);
    assert !StartsWell(before[i], GroupOf(trades, i, |before|));
    LostCount(before, now, trades, todo, i, b);
    hide StartsWell, StartsBadly, GroupOf, TotalEvents, StoredInto, Pending, AllGrown;
    assert !AllStartWell(before, trades);
  }

  lemma RefusedIsGrowth(before: seq<Block>, now: seq<Block>, trades: seq<TradeEvent>, todo: set<nat>, i: nat, b: Block)
    requires Pending(before, now, trades, todo) && i < |before|
    requires StoredInto(before[i], b, GroupOf(trades, i, |before|), Refused)
    ensures AllGrown(before, now[i := b], trades)
  {
    hide GroupOf, TotalEvents, Grouped, StartsBadly, StartsParsed, StartsUnparsed;
    ProgressIsGrowth(before, now, trades, todo);
    assert Grown(before[i], b, GroupOf(trades, i, |before|));
    hide Grown, StoredInto;
  }

  lemma LostCount(before: seq<Block>, now: seq<Block>, trades: seq<TradeEvent>, todo: set<nat>, i: nat, b: Block)
    requires Pending(before, now, trades, todo) && i < |before| && i in todo && now[i] == before[i]
    requires GroupOf(trades, i, |before|) != []
    requires StoredInto(before[i], b, GroupOf(trades, i, |before|), Refused)
    requires before[i].eventCount == |Held(before[i])| && b.eventCount == |Held(b)|
    ensures TotalEvents(now[i := b]) <= TotalEvents(before) + |trades|
    ensures SomeStartsBadly(before, trades) ==> TotalEvents(now[i := b]) < TotalEvents(before) + |trades|
  {
    hide TotalEvents, StoredInto, Settled, Grouped, GroupOf, StartsBadly, Held;
    var capacity := |before|;
    StoredCount(before, now, i, b, GroupOf(trades, i, capacity), Refused);
    GroupedStep(trades, todo, i, capacity);
    GroupedAtMost(trades, todo - {i}, capacity);
    if SomeStartsBadly(before, trades) {
      var k :| 0 <= k < capacity && StartsBadly(before[k], GroupOf(trades, k, capacity));
      BadIsNotEmpty(before[k], GroupOf(trades, k, capacity));
      GroupedAtMost(trades, todo - {k}, capacity);
      GroupedStep(trades, todo, k, capacity);
      if k != i {
        GroupedStep(trades, todo - {i}, k, capacity);
        GroupedAtMost(trades, (todo - {i}) - {k}, capacity);
      }
    }
  }

  lemma BadIsNotEmpty(b: Block, group: seq<TradeEvent>)
    requires StartsBadly(b, group)
    ensures group != []
  {
  }

  lemma {:induction false} GroupedAtMost(trades: seq<TradeEvent>, todo: set<nat>, capacity: nat)
    requires capacity > 0
    ensures Grouped(trades, todo, capacity) <= |trades|
  {
    if trades != [] {
      GroupedAtMost(trades[..|trades| - 1], todo, capacity);
    }
  }

  lemma ProgressStep(before: seq<Block>, now: seq<Block>, trades: seq<TradeEvent>, todo: set<nat>, i: nat, b: Block)
    requires Progress(before, now, trades, todo) && i < |before| && i in todo && GroupOf(trades, i, |before|) != []
    requires Merged(Held(before[i]), GroupOf(trades, i, |before|), Held(b))
    requires before[i].eventCount == |Held(before[i])| && b.eventCount == |Held(b)|
    ensures Progress(before, now[i := b], trades, todo - {i})
  {
    hide Decompressed, Image;
    var capacity := |before|;
    assert Settled(before[i], now[i], GroupOf(trades, i, capacity), true);
    TotalAfterUpdate(now, i, b);
    GroupedStep(trades, todo, i, capacity);
    MergedCounts(Held(before[i]), GroupOf(trades, i, capacity), Held(b));
    forall k | 0 <= k < capacity
      ensures Settled(before[k], now[i := b][k], GroupOf(trades, k, capacity), k in todo - {i})
    {
      assert Settled(before[k], now[k], GroupOf(trades, k, capacity), k in todo);
    }
  }

  lemma GroupedNone(trades: seq<TradeEvent>, todo: set<nat>, capacity: nat)
    requires capacity > 0
    requires forall i :: 0 <= i < |trades| ==> Home(trades[i], capacity) in todo
    ensures Grouped(trades, todo, capacity) == 0
  {
    FilterNone(trades, (t: TradeEvent) => Home(t, capacity) !in todo);
  }

  lemma {:induction false} GroupedAll(trades: seq<TradeEvent>, capacity: nat)
    requires capacity > 0
    ensures Grouped(trades, {}, capacity) == |trades|
  {
    if trades != [] {
      GroupedAll(trades[..|trades| - 1], capacity);
    }
  }

  lemma {:induction false} GroupedStep(trades: seq<TradeEvent>, todo: set<nat>, i: nat, capacity: nat)
    requires capacity > 0 && i in todo
    ensures Grouped(trades, todo - {i}, capacity) == Grouped(trades, todo, capacity) + |GroupOf(trades, i, capacity)|
  {
    if trades != [] {
      GroupedStep(trades[..|trades| - 1], todo, i, capacity);
    }
  }

  /** A block's group: trades of the batch, all mapped to that block. */
  lemma {:induction false} GroupFacts(trades: seq<TradeEvent>, i: nat, window: nat, capacity: nat)
    requires capacity > 0 && BatchFits(trades, window, capacity)
    ensures var g := GroupOf(trades, i, capacity);
            && BatchFits(g, window, capacity) && |g| <= |trades|
            && (forall k :: 0 <= k < |g| ==> Home(g[k], capacity) == i)
            && (AllParse(trades) ==> AllParse(g))
  {
    if trades != [] {
      GroupFacts(trades[..|trades| - 1], i, window, capacity);
    }
  }

  lemma GroupHome(trades: seq<TradeEvent>, i: nat, capacity: nat)
    requires capacity > 0 && GroupOf(trades, i, capacity) != []
    ensures i < capacity
  {
    if i >= capacity {
      FilterNone(trades, (t: TradeEvent) => Home(t, capacity) == i);
    }
  }

  /** One block, one window: one period. */
  lemma GroupIsOnePeriod(group: seq<TradeEvent>, window: nat, capacity: nat)
    requires capacity > 0 && group != [] && BatchFits(group, window, capacity)
    requires forall k :: 0 <= k < |group| ==>
      Home(group[k], capacity) == Home(group[0], capacity)
    ensures OfPeriod(group, Period(group[0].timestamp))
  {
    forall k | 0 <= k < |group| ensures Period(group[k].timestamp) == Period(group[0].timestamp) {
      WrappedIsInjective(Period(group[k].timestamp), Period(group[0].timestamp), capacity);
    }
  }

  lemma {:induction false} NothingHeld(blocks: seq<Block>)
    requires forall i :: 0 <= i < |blocks| ==> blocks[i] == EMPTY_BLOCK
    ensures AllHeld(blocks) == []
  {
    if blocks != [] {
      NothingHeld(blocks[..|blocks| - 1]);
    }
  }

  lemma SameMultisetSameFacts(a: seq<TradeEvent>, b: seq<TradeEvent>, p: int)
    requires multiset(a) == multiset(b) && OfPeriod(a, p)
    ensures OfPeriod(b, p) && |a| == |b|
    ensures forall i :: 0 <= i < |b| ==> IsByteString(b[i].symbol) && |b[i].symbol| <= MAX32
  {
    assert |multiset(a)| == |a| && |multiset(b)| == |b|;
    forall i | 0 <= i < |b| ensures Storable(b[i]) && Period(b[i].timestamp) == p {
      assert b[i] in multiset(b);
      assert b[i] in a;
    }
  }
}
