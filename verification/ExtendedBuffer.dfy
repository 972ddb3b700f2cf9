/** The two-tier buffer: fresh trades in hot rings, migrated trades in cold rings, one pair per exchange
    key. Its ghost `log` lists the trades offered to each key; the invariant accounts for all of them, and says
    what a query makes of them. */
module ExtendedBuffers {
  import opened Trades
  import opened BinaryFrame
  import opened DeltaCodec
  import opened Blocks
  import opened Bags
  import opened Conservation
  import opened Tiers
  import opened Serving
  import CB = CircularBuffers
  import CR = CompressedRings

  const NANOS_PER_SECOND: int := 1_000_000_000
  const MIN_HOT_DURATION: int := 120 * NANOS_PER_SECOND
  const BLOCK_SIZE: int := 30 * NANOS_PER_SECOND
  const TRADES_PER_SECOND: int := 5000
  const TIER_MARKETS: seq<string> := ["spot", "futures"]

  datatype Answer = Stored | Refused

  /** The objects of one key. */
  ghost function StorageOf(hot: CB.CircularBuffer, cold: CR.CompressedRing): set<object> {
    {hot, hot.data, cold, cold.blocks, cold.compressor}
  }

  /** One key's tiers: open and well formed, the hot trades ready to migrate, the cold trades before the
      boundary, every trade offered accounted for, and a steady key's arrivals cut to their grids. */
  ghost predicate KeyValid(hot: CB.CircularBuffer, cold: CR.CompressedRing, window: nat, boundary: int,
                           log: History, names: seq<string>)
    reads StorageOf(hot, cold)
  {
    && hot.Valid() && cold.Valid(window) && !hot.closed && !cold.closed
    && CR.BatchFits(hot.Contents(), window, cold.capacity)
    && BlocksBefore(cold.blocks[..], boundary)
    && Accounted(hot.Contents(), cold.blocks[..], log.offered, names)
    && Steady(hot.Contents(), cold.blocks[..], log, names, boundary)
  }

  /** What one migration of a key does, stated on the values before and after. */
  ghost predicate Migrated(hotBefore: seq<TradeEvent>, hotAfter: seq<TradeEvent>,
                           coldBefore: seq<Block>, coldAfter: seq<Block>, cutoffMilli: int) {
    var m := CB.OldPrefix(hotBefore, cutoffMilli);
    && hotAfter == hotBefore[m..]
    && (CR.Outcome(coldBefore, coldAfter, hotBefore[..m], CR.Done) || CR.Outcome(coldBefore, coldAfter, hotBefore[..m], CR.Refused))
  }

  /** A migration neither loses nor doubles a trade exactly when the price of every block's earliest merged
      trade parses. */
  lemma MigrationConservesIff(hotBefore: seq<TradeEvent>, hotAfter: seq<TradeEvent>,
                              coldBefore: seq<Block>, coldAfter: seq<Block>, cutoffMilli: int)
    requires Migrated(hotBefore, hotAfter, coldBefore, coldAfter, cutoffMilli)
    requires CR.AllDecided(coldBefore, hotBefore[..CB.OldPrefix(hotBefore, cutoffMilli)])
    ensures |hotAfter| + TotalEvents(coldAfter) == |hotBefore| + TotalEvents(coldBefore)
            <==> CR.AllStartWell(coldBefore, hotBefore[..CB.OldPrefix(hotBefore, cutoffMilli)])
    ensures hotAfter != [] ==> hotAfter[0].timestamp >= cutoffMilli
  {
    hide CR.AllGrown, CR.AllSettled, CR.AllStartWell, CR.SomeStartsBadly, CR.AllDecided, TotalEvents;
    var m := CB.OldPrefix(hotBefore, cutoffMilli);
    var r := if CR.Outcome(coldBefore, coldAfter, hotBefore[..m], CR.Done) then CR.Done else CR.Refused;
    CR.ArrivesWholeIff(coldBefore, coldAfter, hotBefore[..m], r);
  }

  lemma RegimeStartsWell(before: seq<Block>, trades: seq<TradeEvent>, names: seq<string>)
    requires |before| > 0 && BlocksInRegime(before, trades, names)
    ensures CR.AllStartWell(before, trades)
  {
    hide InRegime, Held, CR.GroupOf;
    forall i | 0 <= i < |before| ensures CR.StartsWell(before[i], CR.GroupOf(trades, i, |before|)) {
      var all := Held(before[i]) + CR.GroupOf(trades, i, |before|);
      assert InRegime(all, names);
      RegimeIsPriced(all, names);
    }
  }

  /** In the codec's regime a migration keeps every trade's identity. */
  lemma MigrationConservesIdentities(hotBefore: seq<TradeEvent>, hotAfter: seq<TradeEvent>, coldBefore: seq<Block>,
                                     coldAfter: seq<Block>, cutoffMilli: int, names: seq<string>)
    requires Migrated(hotBefore, hotAfter, coldBefore, coldAfter, cutoffMilli)
    requires BlocksInRegime(coldBefore, hotBefore[..CB.OldPrefix(hotBefore, cutoffMilli)], names)
    ensures Identities(hotAfter) + Identities(AllHeld(coldAfter)) == Identities(hotBefore) + Identities(AllHeld(coldBefore))
  {
    hide *;
    var m := CB.OldPrefix(hotBefore, cutoffMilli);
    var moved := hotBefore[..m];
    MigratedElim(hotBefore, hotAfter, coldBefore, coldAfter, cutoffMilli);
    RegimeStartsWell(coldBefore, moved, names);
    WellIsDone(coldBefore, coldAfter, moved);
    BatchConservesIdentities(coldBefore, coldAfter, moved, names);
    assert hotBefore == moved + hotAfter;
    IdentitiesConcat(moved, hotAfter);
    MovedSums(Identities(moved), Identities(hotAfter), Identities(AllHeld(coldBefore)));
  }

  lemma MigratedElim(hotBefore: seq<TradeEvent>, hotAfter: seq<TradeEvent>, coldBefore: seq<Block>,
                     coldAfter: seq<Block>, cutoffMilli: int)
    requires Migrated(hotBefore, hotAfter, coldBefore, coldAfter, cutoffMilli)
    ensures var m := CB.OldPrefix(hotBefore, cutoffMilli);
            && hotAfter == hotBefore[m..] && |coldBefore| > 0
            && (CR.Outcome(coldBefore, coldAfter, hotBefore[..m], CR.Done)
                || CR.Outcome(coldBefore, coldAfter, hotBefore[..m], CR.Refused))
  {
    hide CR.AllGrown, CR.AllSettled, CR.AllStartWell, CR.SomeStartsBadly, TotalEvents;
  }

  lemma WellIsDone(before: seq<Block>, after: seq<Block>, trades: seq<TradeEvent>)
    requires CR.Outcome(before, after, trades, CR.Done) || CR.Outcome(before, after, trades, CR.Refused)
    requires |before| > 0 && CR.AllStartWell(before, trades)
    ensures CR.Outcome(before, after, trades, CR.Done)
  {
    hide CR.AllGrown, CR.AllSettled, CR.AllStartWell, CR.SomeStartsBadly, TotalEvents;
  }

  lemma MovedSums<U>(a: multiset<U>, b: multiset<U>, c: multiset<U>)
    ensures b + (c + a) == (a + b) + c
  {
  }

  lemma OldIsBefore(hot: seq<TradeEvent>, cutoffNano: int64)
    ensures Before(hot[..CB.OldPrefix(hot, Millis(cutoffNano))], cutoffNano)
  {
  }

  lemma BlocksBeforeLater(blocks: seq<Block>, a: int, b: int)
    requires BlocksBefore(blocks, a) && a <= b
    ensures BlocksBefore(blocks, b)
  {
    hide Held;
    forall i | 0 <= i < |blocks| ensures Before(Held(blocks[i]), b) {
      assert Before(Held(blocks[i]), a);
    }
  }

  lemma PrefixFits(trades: seq<TradeEvent>, m: nat, window: nat, capacity: nat)
    requires m <= |trades| && CR.BatchFits(trades, window, capacity)
    ensures CR.BatchFits(trades[..m], window, capacity) && CR.BatchFits(trades[m..], window, capacity)
  {
    hide Storable;
  }

  lemma SnocFits(trades: seq<TradeEvent>, t: TradeEvent, window: nat, capacity: nat)
    requires CR.BatchFits(trades, window, capacity) && CR.BatchFits([t], window, capacity)
    ensures CR.BatchFits(trades + [t], window, capacity)
  {
    hide Storable;
    assert [t][0] == t;
  }

  /** The cold ring has room for every trade accounted for. */
  lemma AccountedHasRoom(cold: CR.CompressedRing, window: nat, hot: seq<TradeEvent>, moving: seq<TradeEvent>,
                         log: seq<TradeEvent>, names: seq<string>)
    requires cold.Valid(window) && InTransit(hot, moving, cold.blocks[..], log, names)
    ensures cold.Roomy(|moving|)
  {
    TotalIsHeld(cold.blocks[..], window);
    hide Held, TotalEvents, InWindow;
    forall i | 0 <= i < cold.blocks.Length ensures |Held(cold.blocks[i])| + |moving| <= MAX32 {
      assert cold.blocks[..][i] == cold.blocks[i];
    }
  }

  lemma NoBatchNoChange(blocks: seq<Block>)
    requires |blocks| > 0
    ensures CR.Outcome(blocks, blocks, [], CR.Done)
  {
    hide Held, Merged, TotalEvents;
    assert forall i: nat :: i < |blocks| ==> CR.GroupOf([], i, |blocks|) == [];
  }

  lemma ReadyToMove(hot: CB.CircularBuffer, cold: CR.CompressedRing, cutoffNano: int64, window: nat, boundary: int,
                    log: History, names: seq<string>)
    requires KeyValid(hot, cold, window, boundary, log, names) && boundary <= cutoffNano
    ensures hot.Valid() && hot.InStep() && cold.Valid(window) && !hot.closed && !cold.closed
    ensures BlocksBefore(cold.blocks[..], cutoffNano) && Steady(hot.Contents(), cold.blocks[..], log, names, boundary)
    ensures cold.capacity == |cold.blocks[..]| > 0 && InWindow(cold.blocks[..], window)
    ensures var m := CB.OldPrefix(hot.Contents(), Millis(cutoffNano));
            var moved, rest := hot.Contents()[..m], hot.Contents()[m..];
            && InTransit(rest, moved, cold.blocks[..], log.offered, names) && cold.Roomy(|moved|) && Before(moved, cutoffNano)
            && CR.BatchFits(moved, window, cold.capacity) && CR.BatchFits(rest, window, cold.capacity)
  {
    var contents, before := hot.Contents(), cold.blocks[..];
    var m := CB.OldPrefix(contents, Millis(cutoffNano));
    TakeOff(contents, m, before, log.offered, names);
    AccountedHasRoom(cold, window, contents[m..], contents[..m], log.offered, names);
    PrefixFits(contents, m, window, cold.capacity);
    OldIsBefore(contents, cutoffNano);
    BlocksBeforeLater(before, boundary, cutoffNano);
  }

  /** One key's turn in the maintenance loop. */
  method MoveOldTrades(hot: CB.CircularBuffer, cold: CR.CompressedRing, cutoffNano: int64, ghost window: nat,
                       ghost boundary: int, ghost log: History, ghost names: seq<string>)
    requires KeyValid(hot, cold, window, boundary, log, names) && boundary <= cutoffNano
    modifies StorageOf(hot, cold)
    ensures KeyValid(hot, cold, window, cutoffNano, log, names)
    ensures Migrated(old(hot.Contents()), hot.Contents(), old(cold.blocks[..]), cold.blocks[..], Millis(cutoffNano))
  {
    hide KeyValid, Migrated, InTransit, Steady, Before, BlocksBefore, InWindow, Millis, CB.OldPrefix, CB.Queue, CB.IndexSound,
      CR.BatchFits, CR.Outcome, CR.CompressedRing.Valid, CR.CompressedRing.Roomy;
    ReadyToMove(hot, cold, cutoffNano, window, boundary, log, names);
    ghost var contents, before := hot.Contents(), cold.blocks[..];
    ghost var m := CB.OldPrefix(contents, Millis(cutoffNano));
    ghost var moved, rest := contents[..m], contents[m..];
    var oldTrades := hot.ExtractOldTrades(cutoffNano);
    assert oldTrades == moved && hot.Contents() == rest && cold.blocks[..] == before;
    ghost var r := CR.Done;
    if |oldTrades| > 0 {
      var status := cold.CompressAndStore(oldTrades, window);
      r := status;
    } else {
      NoBatchNoChange(before);
    }
    Arrive(rest, moved, before, cold.blocks[..], log.offered, names, r, window);
    SteadyMove(contents, m, before, cold.blocks[..], log, names, boundary, cutoffNano, r, window);
    BatchStaysBefore(before, cold.blocks[..], moved, r, window, cutoffNano);
    MigratedIntro(contents, rest, before, cold.blocks[..], Millis(cutoffNano), r);
    KeyValidIntro(hot, cold, window, cutoffNano, log, names);
  }

  lemma MigratedIntro(hotBefore: seq<TradeEvent>, hotAfter: seq<TradeEvent>, coldBefore: seq<Block>,
                      coldAfter: seq<Block>, cutoffMilli: int, r: CR.Status)
    requires hotAfter == hotBefore[CB.OldPrefix(hotBefore, cutoffMilli)..]
    requires CR.Outcome(coldBefore, coldAfter, hotBefore[..CB.OldPrefix(hotBefore, cutoffMilli)], r)
    ensures Migrated(hotBefore, hotAfter, coldBefore, coldAfter, cutoffMilli)
  {
  }

  lemma KeyValidIntro(hot: CB.CircularBuffer, cold: CR.CompressedRing, window: nat, boundary: int,
                      log: History, names: seq<string>)
    requires hot.Valid() && cold.Valid(window) && !hot.closed && !cold.closed
    requires CR.BatchFits(hot.Contents(), window, cold.capacity)
    requires BlocksBefore(cold.blocks[..], boundary)
    requires Accounted(hot.Contents(), cold.blocks[..], log.offered, names)
    requires Steady(hot.Contents(), cold.blocks[..], log, names, boundary)
    ensures KeyValid(hot, cold, window, boundary, log, names)
  {
  }

  lemma KeyValidElim(hot: CB.CircularBuffer, cold: CR.CompressedRing, window: nat, boundary: int,
                     log: History, names: seq<string>)
    requires KeyValid(hot, cold, window, boundary, log, names)
    ensures hot.Valid() && hot.InStep() && cold.Valid(window) && !hot.closed && !cold.closed
    ensures BlocksBefore(cold.blocks[..], boundary) && hot.size <= |log.offered|
  {
  }

  /** As time passes the boundary only moves up. */
  lemma KeyValidLater(hot: CB.CircularBuffer, cold: CR.CompressedRing, window: nat, boundary: int, later: int,
                      log: History, names: seq<string>)
    requires KeyValid(hot, cold, window, boundary, log, names) && boundary <= later
    ensures KeyValid(hot, cold, window, later, log, names)
  {
    hide BlocksBefore, Accounted, CR.BatchFits, Steady;
    BlocksBeforeLater(cold.blocks[..], boundary, later);
    SteadyLater(hot.Contents(), cold.blocks[..], log, names, boundary, later);
  }

  /** Where a key stands in a pass: still as it was when the pass began, or migrated since. */
  ghost predicate Turn(hot: CB.CircularBuffer, cold: CR.CompressedRing, window: nat, boundary: int, cutoff: int64,
                       log: History, names: seq<string>, was: (seq<TradeEvent>, seq<Block>), done: bool)
    reads StorageOf(hot, cold)
  {
    if done then
      && KeyValid(hot, cold, window, cutoff, log, names)
      && Migrated(was.0, hot.Contents(), was.1, cold.blocks[..], Millis(cutoff))
    else
      KeyValid(hot, cold, window, boundary, log, names) && hot.Contents() == was.0 && cold.blocks[..] == was.1
  }

  method MigrateKey(hot: CB.CircularBuffer, cold: CR.CompressedRing, ghost window: nat, ghost boundary: int, cutoff: int64,
                    ghost log: History, ghost names: seq<string>, ghost was: (seq<TradeEvent>, seq<Block>))
    requires Turn(hot, cold, window, boundary, cutoff, log, names, was, false) && boundary <= cutoff
    modifies StorageOf(hot, cold)
    ensures Turn(hot, cold, window, boundary, cutoff, log, names, was, true)
  {
    hide Migrated, Millis, Accounted, BlocksBefore;
    MoveOldTrades(hot, cold, cutoff, window, boundary, log, names);
  }

  /** A key's history with one more trade. */
  function Grown(h: History, t: TradeEvent, late: bool): History {
    History(h.offered + [t], h.steady && !late)
  }

  lemma LateIsNotSteady(hot: seq<TradeEvent>, cold: seq<Block>, h: History, t: TradeEvent, names: seq<string>, boundary: int)
    ensures Steady(hot, cold, Grown(h, t, true), names, boundary) && Grown(h, t, true).offered == h.offered + [t]
  {
  }

  /** A fresh trade joins the hot queue; the cold ring is not touched. */
  method StoreHot(hot: CB.CircularBuffer, cold: CR.CompressedRing, trade: TradeEvent, ghost window: nat,
                  ghost boundary: int, ghost later: int, ghost log: History, ghost names: seq<string>) returns (r: Answer)
    requires KeyValid(hot, cold, window, boundary, log, names) && boundary <= later
    requires CR.BatchFits([trade], window, cold.capacity) && |log.offered| < MAX32
    modifies hot, hot.data
    ensures r == Stored
    ensures old(hot.size) + 1 < hot.capacity ==>
      && hot.Valid() && hot.InStep() && hot.Contents() == old(hot.Contents()) + [trade]
      && KeyValid(hot, cold, window, later, Grown(log, trade, false), names)
  {
    Offer(hot.Contents(), cold.blocks[..], log.offered, trade, names);
    SteadyStore(hot.Contents(), cold.blocks[..], log, names, boundary, trade);
    SteadyLater(hot.Contents() + [trade], cold.blocks[..], Grown(log, trade, false), names, boundary, later);
    SnocFits(hot.Contents(), trade, window, cold.capacity);
    BlocksBeforeLater(cold.blocks[..], boundary, later);
    hide CR.BatchFits, BlocksBefore, Accounted, Steady, CR.CompressedRing.Valid;
    var stored := hot.Store(trade);
    r := if stored.Ok? then Stored else Refused;
  }

  /** An old trade goes to its cold block; the hot ring is not touched. */
  method StoreCold(hot: CB.CircularBuffer, cold: CR.CompressedRing, trade: TradeEvent, ghost window: nat,
                   ghost boundary: int, ghost later: int, ghost log: History, ghost names: seq<string>) returns (r: Answer)
    requires KeyValid(hot, cold, window, boundary, log, names) && boundary <= later
    requires CR.BatchFits([trade], window, cold.capacity) && |log.offered| < MAX32 && trade.timestamp * NANOS_PER_MILLI < later
    modifies cold.blocks, cold.compressor
    ensures KeyValid(hot, cold, window, later, Grown(log, trade, true), names) && hot.Contents() == old(hot.Contents())
    ensures var i := Home(trade, cold.capacity);
            && cold.blocks[..] == old(cold.blocks[..])[i := cold.blocks[i]]
            && CR.StoredInto(old(cold.blocks[i]), cold.blocks[i], [trade], if r == Stored then CR.Done else CR.Refused)
  {
    ghost var contents, before := hot.Contents(), cold.blocks[..];
    Offer(contents, before, log.offered, trade, names);
    AccountedHasRoom(cold, window, contents, [trade], log.offered + [trade], names);
    BlocksBeforeLater(before, boundary, later);
    assert Before([trade], later);
    assert cold.capacity == |before| > 0 && InWindow(before, window);
    hide *;
    var status := cold.Store(trade, window);
    assert hot.Contents() == contents;
    Arrive(contents, [trade], before, cold.blocks[..], log.offered + [trade], names, status, window);
    BatchStaysBefore(before, cold.blocks[..], [trade], status, window, later);
    LateIsNotSteady(contents, cold.blocks[..], log, trade, names, later);
    KeyValidIntro(hot, cold, window, later, Grown(log, trade, true), names);
    r := if status.Done? then Stored else Refused;
  }

  /** The answer holds exactly what the two tiers show. */
  ghost predicate Shows(result: seq<TradeEvent>, hot: seq<TradeEvent>, cold: seq<TradeEvent>,
                        startNano: int64, endNano: int64, hotStart: int64) {
    && SortedByTime(result)
    && multiset(result) == multiset(HotPart(hot, startNano, endNano, hotStart))
                           + multiset(ColdPart(cold, startNano, endNano, hotStart))
  }

  /** Both tiers are asked for their side of the hot boundary; a closed one that is asked fails the query. */
  method QueryTiers(hot: CB.CircularBuffer, cold: CR.CompressedRing, startNano: int64, endNano: int64, hotStart: int64,
                    ghost window: nat) returns (r: Option<seq<TradeEvent>>)
    requires hot.InStep() && cold.Valid(window)
    ensures r.None? <==> (endNano > hotStart && hot.closed) || (startNano < hotStart && cold.closed)
    ensures r.Some? ==> Shows(r.value, hot.Contents(), AllHeld(cold.blocks[..]), startNano, endNano, hotStart)
  {
    var hotTrades, coldTrades := [], [];
    HotPartIs(hot.Contents(), startNano, endNano, hotStart);
    ColdPartIs(AllHeld(cold.blocks[..]), startNano, endNano, hotStart);
    hide HotPart, ColdPart, AllHeld, InRangeOf, Millis, CB.Queue;
    if endNano > hotStart {
      var answer := hot.GetRange(if startNano > hotStart then startNano else hotStart, endNano);
      if answer.Error? {
        return None;
      }
      hotTrades := answer.value;
      RangeIs(hot.Contents(), if startNano > hotStart then startNano else hotStart, endNano);
    }
    if startNano < hotStart {
      var status;
      status, coldTrades := cold.GetRange(startNano, if endNano < hotStart then endNano else hotStart, window);
      if status.Refused? {
        return None;
      }
    }
    MultisetConcat(hotTrades, coldTrades);
    var result := SortByTime(hotTrades + coldTrades);
    return Some(result);
  }

  lemma RangeIs(trades: seq<TradeEvent>, startNano: int64, endNano: int64)
    ensures Filter(trades, (t: TradeEvent) => InRange(t, Millis(startNano), Millis(endNano)))
         == InRangeOf(trades, Millis(startNano), Millis(endNano))
  {
  }

  lemma HotPartIs(hot: seq<TradeEvent>, startNano: int64, endNano: int64, hotStart: int64)
    ensures HotPart(hot, startNano, endNano, hotStart)
            == if endNano > hotStart then InRangeOf(hot, Millis(if startNano > hotStart then startNano else hotStart), Millis(endNano))
               else []
  {
    var p := (t: TradeEvent) => ShownHot(t, startNano, endNano, hotStart);
    if endNano > hotStart {
      var lo := Millis(if startNano > hotStart then startNano else hotStart);
      FilterCongruence(hot, p, (t: TradeEvent) => InRange(t, lo, Millis(endNano)));
    } else {
      FilterNone(hot, p);
    }
  }

  lemma ColdPartIs(cold: seq<TradeEvent>, startNano: int64, endNano: int64, hotStart: int64)
    ensures ColdPart(cold, startNano, endNano, hotStart)
            == if startNano < hotStart then InRangeOf(cold, Millis(startNano), Millis(if endNano < hotStart then endNano else hotStart))
               else []
  {
    var p := (t: TradeEvent) => ShownCold(t, startNano, endNano, hotStart);
    if startNano < hotStart {
      var hi := Millis(if endNano < hotStart then endNano else hotStart);
      FilterCongruence(cold, p, (t: TradeEvent) => InRange(t, Millis(startNano), hi));
    } else {
      FilterNone(cold, p);
    }
  }

  /** With the waiting hot trades and the skipped cold ones added, the answer is everything both tiers hold
      in the range. */
  ghost predicate LacksOnlyWaiting(result: seq<TradeEvent>, hot: seq<TradeEvent>, cold: seq<TradeEvent>,
                                   startNano: int64, endNano: int64, hotStart: int64) {
    multiset(result) + multiset(WaitingPart(hot, startNano, endNano, hotStart)) + multiset(SkippedPart(cold, startNano, endNano, hotStart))
    == multiset(InRangeOf(hot, Millis(startNano), Millis(endNano))) + multiset(InRangeOf(cold, Millis(startNano), Millis(endNano)))
  }

  /** With all cold trades before the boundary, an answer lacks exactly the hot trades still waiting and the
      cold ones in the millisecond of a late start. */
  lemma AnswerLacksOnlyWaiting(result: seq<TradeEvent>, hot: seq<TradeEvent>, cold: seq<TradeEvent>,
                               startNano: int64, endNano: int64, hotStart: int64)
    requires Shows(result, hot, cold, startNano, endNano, hotStart) && Before(cold, hotStart)
    ensures LacksOnlyWaiting(result, hot, cold, startNano, endNano, hotStart)
  {
    hide HotPart, ColdPart, WaitingPart, SkippedPart, InRangeOf, Millis;
    HotSideMisses(hot, startNano, endNano, hotStart);
    ColdSideMisses(cold, startNano, endNano, hotStart);
  }

  /** The keys' rings share no storage. */
  ghost predicate Separate(hots: map<string, CB.CircularBuffer>, colds: map<string, CR.CompressedRing>) {
    && hots.Keys == colds.Keys
    && forall k, l :: k in hots && l in hots && k != l ==> StorageOf(hots[k], colds[k]) !! StorageOf(hots[l], colds[l])
  }

  /** Everything the keys' rings consist of. */
  ghost function AllStorage(hots: map<string, CB.CircularBuffer>, colds: map<string, CR.CompressedRing>): set<object> {
    set k, o | k in hots && k in colds && o in StorageOf(hots[k], colds[k]) :: o
  }

  ghost predicate TiersValid(hots: map<string, CB.CircularBuffer>, colds: map<string, CR.CompressedRing>, window: nat,
                             boundary: int, log: map<string, History>, names: seq<string>)
    reads AllStorage(hots, colds)
  {
    && Separate(hots, colds) && log.Keys == hots.Keys
    && forall k :: k in hots ==> KeyValid(hots[k], colds[k], window, boundary, log[k], names)
  }

  /** Fresh rings for one key. */
  method NewTiers(hotCapacity: int, coldBlocks: nat, ghost window: nat, ghost boundary: int, ghost names: seq<string>)
    returns (hot: CB.CircularBuffer, cold: CR.CompressedRing)
    requires hotCapacity > 0 && coldBlocks > 0
    ensures fresh(StorageOf(hot, cold))
    ensures NewKey(hot, cold, hotCapacity, coldBlocks, window, boundary, names)
  {
    hot := new CB.CircularBuffer(hotCapacity);
    cold := new CR.CompressedRing(coldBlocks);
    assert cold.Valid(window);
    NothingStored(cold.blocks[..], window, boundary, names);
  }

  lemma NothingStored(blocks: seq<Block>, window: nat, boundary: int, names: seq<string>)
    requires InWindow(blocks, window) && AllHeld(blocks) == []
    ensures BlocksBefore(blocks, boundary) && Accounted([], blocks, [], names)
    ensures Steady([], blocks, History([], true), names, boundary)
  {
    TotalIsHeld(blocks, window);
    NothingIsSteady(blocks, names, boundary);
    NothingIdentities();
    hide Held, AllHeld, TotalEvents, InRegime, Identities;
    forall i | 0 <= i < |blocks| ensures Before(Held(blocks[i]), boundary) {
      assert |Held(blocks[i])| == 0;
    }
  }

  function KeyOf(exchange: string, market: string): string {
    exchange + "_" + market
  }

  function MarketKeys(exchange: string, markets: seq<string>): set<string> {
    if markets == [] then {}
    else MarketKeys(exchange, markets[..|markets| - 1]) + {KeyOf(exchange, markets[|markets| - 1])}
  }

  function KeysOf(exchanges: seq<string>, markets: seq<string>): set<string> {
    if exchanges == [] then {}
    else KeysOf(exchanges[..|exchanges| - 1], markets) + MarketKeys(exchanges[|exchanges| - 1], markets)
  }

  lemma {:induction false} MarketKeysMeaning(exchange: string, markets: seq<string>, key: string)
    ensures key in MarketKeys(exchange, markets) <==> exists m :: m in markets && key == KeyOf(exchange, m)
  {
    if markets != [] {
      var init, last := markets[..|markets| - 1], markets[|markets| - 1];
      assert markets == init + [last];
      hide KeyOf;
      MarketKeysMeaning(exchange, init, key);
    }
  }

  /** One key for every exchange and market, and no other. */
  lemma {:induction false} KeysMeaning(exchanges: seq<string>, markets: seq<string>, key: string)
    ensures key in KeysOf(exchanges, markets) <==> exists e, m :: e in exchanges && m in markets && key == KeyOf(e, m)
  {
    if exchanges != [] {
      var init, last := exchanges[..|exchanges| - 1], exchanges[|exchanges| - 1];
      assert exchanges == init + [last];
      hide KeyOf;
      KeysMeaning(init, markets, key);
      MarketKeysMeaning(last, markets, key);
    }
  }

  /** A call of a run, with the clock reading it sees. */
  datatype Call = Store(key: string, trade: TradeEvent, at: int) | Maintain(at: int)

  predicate InTurn(calls: seq<Call>, i: nat, hotDuration: int)
    requires i < |calls|
  {
    && MIN64 <= calls[i].at - hotDuration <= MAX64
    && (i + 1 < |calls| ==> calls[i].at <= calls[i + 1].at)
  }

  predicate InOrder(calls: seq<Call>, start: int, hotDuration: int) {
    && (calls != [] ==> start <= calls[0].at)
    && forall i :: 0 <= i < |calls| ==> InTurn(calls, i, hotDuration)
  }

  /** The trade is older than the hot duration when it is stored. */
  predicate Late(trade: TradeEvent, at: int, hotDuration: int) {
    at - trade.timestamp * NANOS_PER_MILLI > hotDuration
  }

  /** A key's history after one call. */
  function HistoryNext(h: History, c: Call, key: string, hotDuration: int): History {
    if c.Store? && c.key == key then Grown(h, c.trade, Late(c.trade, c.at, hotDuration)) else h
  }

  /** A key's hot queue after one call. */
  function HotNext(hot: seq<TradeEvent>, c: Call, key: string, hotDuration: int): seq<TradeEvent> {
    match c
    case Store(k, trade, at) => if k == key && !Late(trade, at, hotDuration) then hot + [trade] else hot
    case Maintain(at) => hot[CB.OldPrefix(hot, Millis(at - hotDuration))..]
  }

  lemma PassTakesPrefix(hotBefore: seq<TradeEvent>, hotAfter: seq<TradeEvent>, coldBefore: seq<Block>, coldAfter: seq<Block>,
                        at: int, key: string, hotDuration: int)
    requires Migrated(hotBefore, hotAfter, coldBefore, coldAfter, Millis(at - hotDuration))
    ensures hotAfter == HotNext(hotBefore, Maintain(at), key, hotDuration)
  {
    hide CR.Outcome;
  }

  function HistoryAfter(h: History, calls: seq<Call>, key: string, hotDuration: int): History {
    if calls == [] then h
    else HistoryNext(HistoryAfter(h, calls[..|calls| - 1], key, hotDuration), calls[|calls| - 1], key, hotDuration)
  }

  function HotAfter(hot: seq<TradeEvent>, calls: seq<Call>, key: string, hotDuration: int): seq<TradeEvent> {
    if calls == [] then hot
    else HotNext(HotAfter(hot, calls[..|calls| - 1], key, hotDuration), calls[|calls| - 1], key, hotDuration)
  }

  /** The trades a run offers to a key. */
  function Offered(calls: seq<Call>, key: string): seq<TradeEvent> {
    if calls == [] then []
    else
      var last := calls[|calls| - 1];
      Offered(calls[..|calls| - 1], key) + if last.Store? && last.key == key then [last.trade] else []
  }

  lemma {:induction false} OfferedGrows(calls: seq<Call>, i: nat, key: string)
    requires i <= |calls|
    ensures |Offered(calls[..i], key)| <= |Offered(calls, key)|
  {
    if i < |calls| {
      assert calls[..|calls| - 1][..i] == calls[..i];
      OfferedGrows(calls[..|calls| - 1], i, key);
    } else {
      assert calls[..i] == calls;
    }
  }

  /** The history is what came before and what the run offers, steady while all of it is young. */
  lemma {:induction false} HistoryMeaning(h: History, calls: seq<Call>, key: string, hotDuration: int)
    ensures HistoryAfter(h, calls, key, hotDuration).offered == h.offered + Offered(calls, key)
    ensures HistoryAfter(h, calls, key, hotDuration).steady <==>
            h.steady && forall i :: 0 <= i < |calls| && calls[i].Store? && calls[i].key == key ==>
                          !Late(calls[i].trade, calls[i].at, hotDuration)
  {
    if calls != [] {
      hide Late;
      HistoryMeaning(h, calls[..|calls| - 1], key, hotDuration);
    }
  }

  lemma AfterOneMore(h: History, hot: seq<TradeEvent>, calls: seq<Call>, i: nat, key: string, hotDuration: int)
    requires i < |calls|
    ensures HistoryAfter(h, calls[..i + 1], key, hotDuration)
         == HistoryNext(HistoryAfter(h, calls[..i], key, hotDuration), calls[i], key, hotDuration)
    ensures HotAfter(hot, calls[..i + 1], key, hotDuration)
         == HotNext(HotAfter(hot, calls[..i], key, hotDuration), calls[i], key, hotDuration)
  {
    hide HistoryNext, HotNext;
    assert calls[..i + 1][..i] == calls[..i];
  }

  /** A call is a young store into a ring with one slot left. */
  predicate Fills(c: Call, key: string, hot: seq<TradeEvent>, capacity: int, hotDuration: int) {
    c.Store? && c.key == key && !Late(c.trade, c.at, hotDuration) && |hot| + 1 >= capacity
  }

  /** No store of the run takes the last slot of a ring, whatever the passes free in between. */
  predicate NeverFills(hot: seq<TradeEvent>, calls: seq<Call>, key: string, capacity: int, hotDuration: int) {
    forall i :: 0 <= i < |calls| ==> !Fills(calls[i], key, HotAfter(hot, calls[..i], key, hotDuration), capacity, hotDuration)
  }

  lemma NoMoving(hot: seq<TradeEvent>, cold: seq<Block>, log: seq<TradeEvent>, names: seq<string>)
    requires Accounted(hot, cold, log, names)
    ensures |hot| + TotalEvents(cold) <= |log|
    ensures AllPriced(log) ==> |hot| + TotalEvents(cold) == |log|
    ensures InRegime(log, names) ==> Identities(hot) + Identities(AllHeld(cold)) == Identities(log)
  {
    hide AllPriced, InRegime, AllHeld, TotalEvents;
    NothingIdentities();
  }

  class ExtendedBuffer {
    const hotBuffers: map<string, CB.CircularBuffer>
    const coldBuffers: map<string, CR.CompressedRing>
    const totalDuration: int
    const hotDuration: int
    const coldDuration: int
    var isActive: bool
    /** The block periods a run may use, and the symbols it may meet. */
    ghost const window: nat
    ghost const names: seq<string>
    /** The latest clock reading, and the trades offered to each key. */
    ghost var clock: int
    ghost var log: map<string, History>

    /** The objects a call on one key may write. */
    ghost function KeyStorage(key: string): set<object> {
      if key in hotBuffers && key in coldBuffers then StorageOf(hotBuffers[key], coldBuffers[key]) else {}
    }

    ghost function Storage(): set<object> {
      AllStorage(hotBuffers, coldBuffers)
    }

    /** A key's hot queue and cold blocks. */
    ghost function HotOf(key: string): seq<TradeEvent>
      reads KeyStorage(key)
    {
      if key in hotBuffers && key in coldBuffers && hotBuffers[key].InStep() then hotBuffers[key].Contents() else []
    }

    ghost function ColdOf(key: string): seq<Block>
      reads KeyStorage(key)
    {
      if key in hotBuffers && key in coldBuffers then coldBuffers[key].blocks[..] else []
    }

    ghost predicate Valid()
      reads this, Storage()
    {
      TiersValid(hotBuffers, coldBuffers, window, clock - hotDuration, log, names)
    }

    /** Twelve keys, a hot ring sized for the hot duration and a cold ring for the rest. */
    constructor (totalDuration: int, ghost now: int, ghost window: nat, ghost names: seq<string>)
      requires totalDuration >= MIN_HOT_DURATION + BLOCK_SIZE
      ensures Valid() && fresh(Storage()) && isActive && clock == now
      ensures this.totalDuration == totalDuration && this.window == window && this.names == names
      ensures hotDuration == (if totalDuration / 5 < MIN_HOT_DURATION then MIN_HOT_DURATION else totalDuration / 5)
      ensures coldDuration == totalDuration - hotDuration
      ensures hotBuffers.Keys == KeysOf(EXCHANGES, TIER_MARKETS)
      ensures AllNew(hotBuffers, coldBuffers, hotDuration / NANOS_PER_SECOND * TRADES_PER_SECOND, coldDuration / BLOCK_SIZE,
                     window, now - hotDuration, names)
      ensures log == map k | k in hotBuffers :: History([], true)
    {
      hide KeysOf, AllNew, TiersValid;
      var hot := GoDiv(totalDuration, 5);
      if hot < MIN_HOT_DURATION {
        hot := MIN_HOT_DURATION;
      }
      var hots, colds := MakeBuffers(EXCHANGES, TIER_MARKETS, hot / NANOS_PER_SECOND * TRADES_PER_SECOND,
                                     (totalDuration - hot) / BLOCK_SIZE, window, now - hot, names);
      this.totalDuration, hotDuration, coldDuration := totalDuration, hot, totalDuration - hot;
      hotBuffers, coldBuffers, isActive := hots, colds, true;
      this.window, this.names, clock := window, names, now;
      log := map k | k in hots :: History([], true);
      new;
      NewIsValid(hots, colds, hot / NANOS_PER_SECOND * TRADES_PER_SECOND, (totalDuration - hot) / BLOCK_SIZE,
                 window, now - hot, names);
    }

    predicate TooOld(trade: TradeEvent, now: int) {
      Late(trade, now, hotDuration)
    }

    /** Stores a trade by its age: hot when young enough, else straight into its cold block. Other keys are
        not touched. The invariant is kept unless the store fills the hot ring, where the ring stops counting. */
    method StoreTradeEvent(exchange: string, trade: TradeEvent, now: int) returns (r: Answer)
      requires Valid() && clock <= now && MIN64 <= now - hotDuration <= MAX64
      requires exchange in hotBuffers ==>
        CR.BatchFits([trade], window, coldBuffers[exchange].capacity) && |log[exchange].offered| < MAX32
      modifies this`clock, this`log, KeyStorage(exchange)
      ensures clock == now
      ensures !isActive || exchange !in hotBuffers ==> r == Refused && Valid() && log == old(log)
      ensures !isActive ==> HotOf(exchange) == old(HotOf(exchange)) && ColdOf(exchange) == old(ColdOf(exchange))
      ensures isActive && exchange in hotBuffers ==> log == old(log)[exchange := Grown(old(log)[exchange], trade, TooOld(trade, now))]
      ensures isActive && exchange in hotBuffers && !TooOld(trade, now) ==>
        && r == Stored && ColdOf(exchange) == old(ColdOf(exchange))
        && (|old(HotOf(exchange))| + 1 < hotBuffers[exchange].capacity ==>
              Valid() && HotOf(exchange) == old(HotOf(exchange)) + [trade])
      ensures isActive && exchange in hotBuffers && TooOld(trade, now) ==>
        && Valid() && HotOf(exchange) == old(HotOf(exchange))
        && ColdEffect(old(ColdOf(exchange)), ColdOf(exchange), trade, r)
    {
      hide TiersValid, AllStorage, ColdEffect, BlocksBefore, CR.BatchFits, CB.Queue, CB.IndexSound, CB.CircularBuffer.Valid,
        CR.CompressedRing.Valid;
      SelfIsApart();
      ghost var boundary, later := clock - hotDuration, now - hotDuration;
      SameKeys(hotBuffers, coldBuffers, window, boundary, log, names);
      if !isActive || exchange !in hotBuffers {
        LaterIsValid(hotBuffers, coldBuffers, window, boundary, later, log, names);
        clock := now;
        return Refused;
      }
      TierFactsAt(hotBuffers, coldBuffers, exchange, window, boundary, log, names);
      if !TooOld(trade, now) {
        r := StoreHotForKey(hotBuffers, coldBuffers, exchange, trade, window, boundary, later, log, names);
      } else {
        r := StoreColdForKey(hotBuffers, coldBuffers, exchange, trade, window, boundary, later, log, names);
      }
      log := log[exchange := Grown(log[exchange], trade, TooOld(trade, now))];
      clock := now;
    }

    /** One maintenance pass, keys in any order: for every key exactly the longest hot prefix older than the
        cutoff is handed to the cold ring, and the invariant is kept. */
    method PerformMaintenance(now: int)
      requires Valid() && clock <= now && MIN64 <= now - hotDuration <= MAX64
      modifies this`clock, Storage()
      ensures Valid() && clock == now
      ensures forall k :: k in hotBuffers ==>
        Migrated(old(HotOf(k)), HotOf(k), old(ColdOf(k)), ColdOf(k), Millis(now - hotDuration))
    {
      hide TiersValid, AllStorage, Migrated, CB.Queue, CB.CircularBuffer.Valid, CR.CompressedRing.Valid;
      SelfIsApart();
      ghost var boundary := clock - hotDuration;
      TierFacts(hotBuffers, coldBuffers, window, boundary, log, names);
      clock := now;
      MigrateAll(hotBuffers, coldBuffers, window, boundary, now - hotDuration, log, names);
    }

    /** What every reachable state promises of a key: no trade offered to it is ever doubled, none is lost
        while prices parse, and in the codec's regime every one of them is still there, identity and all. */
    lemma NothingIsLost(key: string)
      requires Valid() && key in log
      ensures var hot, cold, offered := HotOf(key), ColdOf(key), log[key].offered;
              && |hot| + TotalEvents(cold) <= |offered|
              && (AllPriced(offered) ==> |hot| + TotalEvents(cold) == |offered|)
              && (InRegime(offered, names) ==> Identities(hot) + Identities(AllHeld(cold)) == Identities(offered))
    {
      hide AllPriced, InRegime, AllHeld, TotalEvents, Identities, BlocksBefore, Steady, CR.BatchFits, CR.CompressedRing.Valid, CB.Queue;
      assert KeyValid(hotBuffers[key], coldBuffers[key], window, clock - hotDuration, log[key], names);
      NoMoving(HotOf(key), ColdOf(key), log[key].offered, names);
    }

    /** Any run of stores and passes that never fills a hot ring keeps the invariant; the log is exactly what
        the run offered, and every hot queue what the run leaves in it. */
    method Replay(calls: seq<Call>)
      requires Valid() && isActive && InOrder(calls, clock, hotDuration)
      requires forall i :: 0 <= i < |calls| ==> Acceptable(calls[i])
      requires forall k :: k in hotBuffers ==> NeverFills(HotOf(k), calls, k, hotBuffers[k].capacity, hotDuration)
      requires forall k :: k in log ==> |log[k].offered| + |Offered(calls, k)| <= MAX32
      modifies this`clock, this`log, Storage()
      ensures Valid() && log.Keys == old(log).Keys
      ensures forall k :: k in log ==> log[k] == HistoryAfter(old(log)[k], calls, k, hotDuration)
      ensures forall k :: k in hotBuffers ==> HotOf(k) == HotAfter(old(HotOf(k)), calls, k, hotDuration)
    {
      hide Valid, AllStorage, Acceptable;
      SelfIsApart();
      ghost var before := log;
      ghost var queues := map k | k in hotBuffers :: HotOf(k);
      for i := 0 to |calls|
        invariant Valid() && isActive && log.Keys == before.Keys
        invariant forall k :: k in before ==> log[k] == HistoryAfter(before[k], calls[..i], k, hotDuration)
        invariant forall k :: k in hotBuffers ==> HotOf(k) == HotAfter(queues[k], calls[..i], k, hotDuration)
        invariant i < |calls| ==> clock <= calls[i].at
      {
        assert InTurn(calls, i, hotDuration);
        StepFits(before, queues, calls, i);
        hide HistoryAfter, HotAfter, InOrder, HotOf;
        Perform(calls[i]);
        forall k | k in before ensures log[k] == HistoryAfter(before[k], calls[..i + 1], k, hotDuration) {
          AfterOneMore(before[k], [], calls, i, k, hotDuration);
        }
        forall k | k in hotBuffers ensures HotOf(k) == HotAfter(queues[k], calls[..i + 1], k, hotDuration) {
          AfterOneMore(History([], true), queues[k], calls, i, k, hotDuration);
        }
      }
      assert calls[..|calls|] == calls;
    }

    /** The next call of a run that never fills a ring finds room. */
    lemma StepFits(before: map<string, History>, queues: map<string, seq<TradeEvent>>, calls: seq<Call>, i: nat)
      requires i < |calls| && log.Keys == before.Keys && queues.Keys == hotBuffers.Keys
      requires forall k :: k in hotBuffers ==> NeverFills(queues[k], calls, k, hotBuffers[k].capacity, hotDuration)
      requires forall k :: k in before ==> |before[k].offered| + |Offered(calls, k)| <= MAX32
      requires forall k :: k in before ==> log[k] == HistoryAfter(before[k], calls[..i], k, hotDuration)
      requires forall k :: k in hotBuffers ==> HotOf(k) == HotAfter(queues[k], calls[..i], k, hotDuration)
      ensures HasRoom(calls[i])
    {
      hide HotOf, HotAfter, HistoryAfter, Late;
      if calls[i].Store? {
        var k := calls[i].key;
        if k in before {
          HistoryMeaning(before[k], calls[..i], k, hotDuration);
          OfferedGrows(calls, i + 1, k);
          assert calls[..i + 1][..i] == calls[..i];
        }
        if k in hotBuffers {
          assert !Fills(calls[i], k, HotAfter(queues[k], calls[..i], k, hotDuration), hotBuffers[k].capacity, hotDuration);
        }
      }
    }

    /** A store that leaves a slot free, and does not overflow the count of a frame. */
    ghost predicate HasRoom(c: Call)
      reads this`log, Storage()
    {
      c.Store? ==>
        && (c.key in log ==> |log[c.key].offered| < MAX32)
        && (c.key in hotBuffers ==> !Fills(c, c.key, HotOf(c.key), hotBuffers[c.key].capacity, hotDuration))
    }

    /** One call of a run. */
    method Perform(c: Call)
      requires Valid() && isActive && clock <= c.at && MIN64 <= c.at - hotDuration <= MAX64
      requires Acceptable(c) && HasRoom(c)
      modifies this`clock, this`log, Storage()
      ensures Valid() && clock == c.at && log.Keys == old(log).Keys
      ensures forall k :: k in log ==> log[k] == HistoryNext(old(log)[k], c, k, hotDuration)
      ensures forall k :: k in hotBuffers ==> HotOf(k) == HotNext(old(HotOf(k)), c, k, hotDuration)
    {
      hide Valid, Acceptable, HasRoom, HotOf, Storage, KeyStorage, Late, Grown, Millis, CB.OldPrefix;
      SelfIsApart();
      KeysKnown();
      match c
      case Store(key, trade, at) =>
        KeyStorageIsStorage(key);
        PerformStore(key, trade, at);
      case Maintain(at) =>
        PerformMaintain(at);
    }

    method PerformMaintain(at: int)
      requires Valid() && clock <= at && MIN64 <= at - hotDuration <= MAX64
      modifies this`clock, Storage()
      ensures Valid() && clock == at
      ensures forall k :: k in log ==> log[k] == HistoryNext(log[k], Maintain(at), k, hotDuration)
      ensures forall k :: k in hotBuffers ==> HotOf(k) == HotNext(old(HotOf(k)), Maintain(at), k, hotDuration)
    {
      hide Valid, Migrated, HotOf, ColdOf, Storage, HotNext;
      SelfIsApart();
      PerformMaintenance(at);
      forall k | k in hotBuffers ensures HotOf(k) == HotNext(old(HotOf(k)), Maintain(at), k, hotDuration) {
        PassTakesPrefix(old(HotOf(k)), HotOf(k), old(ColdOf(k)), ColdOf(k), at, k, hotDuration);
      }
    }

    method PerformStore(key: string, trade: TradeEvent, at: int)
      requires Valid() && isActive && clock <= at && MIN64 <= at - hotDuration <= MAX64
      requires Acceptable(Store(key, trade, at)) && HasRoom(Store(key, trade, at))
      modifies this`clock, this`log, KeyStorage(key)
      ensures Valid() && clock == at
      ensures log == if key in old(log) then old(log)[key := Grown(old(log)[key], trade, Late(trade, at, hotDuration))] else old(log)
      ensures key in hotBuffers ==>
        HotOf(key) == if Late(trade, at, hotDuration) then old(HotOf(key)) else old(HotOf(key)) + [trade]
      ensures forall k :: k in hotBuffers && k != key ==> HotOf(k) == old(HotOf(k))
    {
      hide Valid, AllStorage, CR.BatchFits, ColdEffect, HotOf, ColdOf, Storage, Late, Grown, Separate;
      KeysKnown();
      AreSeparate();
      SelfIsApart();
      KeyStorageIsStorage(key);
      var _ := StoreTradeEvent(key, trade, at);
      forall k | k in hotBuffers && k != key ensures HotOf(k) == old(HotOf(k)) {
        KeysAreApart(k, key);
        KeyStorageIsStorage(k);
      }
    }

    lemma KeysKnown()
      requires Valid()
      ensures hotBuffers.Keys == coldBuffers.Keys == log.Keys
    {
      hide TiersValid;
      SameKeys(hotBuffers, coldBuffers, window, clock - hotDuration, log, names);
    }

    lemma AreSeparate()
      requires Valid()
      ensures Separate(hotBuffers, coldBuffers)
    {
      hide TiersValid;
      KeysApart(hotBuffers, coldBuffers, window, clock - hotDuration, log, names);
    }

    lemma KeysAreApart(k: string, l: string)
      requires Separate(hotBuffers, coldBuffers) && k in hotBuffers && k != l
      ensures KeyStorage(k) !! KeyStorage(l)
    {
      hide StorageOf;
    }

    ghost predicate Acceptable(c: Call) {
      c.Store? && c.key in coldBuffers ==> CR.BatchFits([c.trade], window, coldBuffers[c.key].capacity)
    }

    lemma KeyStorageIsStorage(key: string)
      ensures KeyStorage(key) <= Storage()
    {
      if key in hotBuffers && key in coldBuffers {
        PartOfStorage(hotBuffers, coldBuffers, key);
      }
    }

    lemma SelfIsApart()
      ensures this !in Storage()
    {
    }

    /** Both tiers are asked for their side of the hot boundary and the answers are sorted; a closed tier that
        is asked fails the query. In every reachable state none is closed and the answer is complete but for
        what waits. */
    method GetTradeEvents(exchange: string, startNano: int64, endNano: int64, now: int) returns (r: Option<seq<TradeEvent>>)
      requires Separate(hotBuffers, coldBuffers) && MIN64 <= now - hotDuration <= MAX64
      requires exchange in hotBuffers ==> hotBuffers[exchange].InStep() && coldBuffers[exchange].Valid(window)
      ensures exchange !in hotBuffers ==> r == Some([])
      ensures exchange in hotBuffers ==>
        && (r.None? <==> (endNano > now - hotDuration && hotBuffers[exchange].closed)
                         || (startNano < now - hotDuration && coldBuffers[exchange].closed))
        && (r.Some? ==> Shows(r.value, HotOf(exchange), AllHeld(ColdOf(exchange)), startNano, endNano, now - hotDuration))
      ensures exchange in hotBuffers && Valid() && clock <= now ==>
        && r.Some?
        && LacksOnlyWaiting(r.value, HotOf(exchange), AllHeld(ColdOf(exchange)), startNano, endNano, now - hotDuration)
        && Serves(exchange, r.value, startNano, endNano, now)
    {
      hide Shows, AllHeld, CB.Queue, CR.CompressedRing.Valid, Valid, LacksOnlyWaiting, Serves;
      assert hotBuffers.Keys == coldBuffers.Keys;
      hide Separate;
      if exchange !in hotBuffers {
        return Some([]);
      }
      r := QueryTiers(hotBuffers[exchange], coldBuffers[exchange], startNano, endNano, now - hotDuration, window);
      if Valid() && clock <= now {
        OpenTiers(exchange);
        AnswerIsComplete(exchange, r.value, startNano, endNano, now);
        AnswerServesArrivals(exchange, r.value, startNano, endNano, now);
      }
    }

    lemma OpenTiers(exchange: string)
      requires exchange in hotBuffers && Valid()
      ensures exchange in coldBuffers && exchange in log && !hotBuffers[exchange].closed && !coldBuffers[exchange].closed
    {
      hide TiersValid, CB.Queue, CB.CircularBuffer.Valid, CR.CompressedRing.Valid;
      TierFacts(hotBuffers, coldBuffers, window, clock - hotDuration, log, names);
    }

    /** In every reachable state the answer lacks exactly the hot trades in the range that still wait for
        their migration, and no trade the cold ring holds unless the query starts after the boundary inside a
        millisecond. */
    lemma AnswerIsComplete(exchange: string, answer: seq<TradeEvent>, startNano: int64, endNano: int64, now: int)
      requires exchange in hotBuffers && Valid() && clock <= now && MIN64 <= now - hotDuration <= MAX64
      requires Shows(answer, HotOf(exchange), AllHeld(ColdOf(exchange)), startNano, endNano, now - hotDuration)
      ensures LacksOnlyWaiting(answer, HotOf(exchange), AllHeld(ColdOf(exchange)), startNano, endNano, now - hotDuration)
    {
      hide Shows, TiersValid, LacksOnlyWaiting, AllHeld, BlocksBefore, CB.Queue, CB.CircularBuffer.Valid, CR.CompressedRing.Valid;
      TierFacts(hotBuffers, coldBuffers, window, clock - hotDuration, log, names);
      BlocksBeforeLater(ColdOf(exchange), clock - hotDuration, now - hotDuration);
      AllHeldBefore(ColdOf(exchange), now - hotDuration);
      AnswerLacksOnlyWaiting(answer, HotOf(exchange), AllHeld(ColdOf(exchange)), startNano, endNano, now - hotDuration);
    }

    /** The answer is what the two tiers would show of the trades offered, those that have left the hot queue
        with their stamps cut: for a key whose trades all came young, in time order and in the codec's regime. */
    ghost predicate Serves(exchange: string, answer: seq<TradeEvent>, startNano: int64, endNano: int64, now: int)
      requires exchange in hotBuffers && exchange in log && MIN64 <= now - hotDuration <= MAX64
      reads this`log, KeyStorage(exchange)
    {
      var h, hot, cold := log[exchange], HotOf(exchange), ColdOf(exchange);
      h.steady && SortedByTime(h.offered) && InRegime(h.offered, names) ==>
        && |hot| <= |h.offered| && h.offered == ArrivedOf(h, hot) + hot && |cold| > 0
        && Views(answer) == Views(HotPart(hot, startNano, endNano, now - hotDuration))
                            + Views(ColdPart(CutLog(ArrivedOf(h, hot), |cold|), startNano, endNano, now - hotDuration))
    }

    /** Exactly when a query that starts before the boundary gets a migrated trade of its range: when the cut
        has not moved the trade before the start, so always from the first million milliseconds on. */
    lemma MigratedTradeIsServedIff(exchange: string, k: nat, startNano: int64, endNano: int64, now: int)
      requires exchange in hotBuffers && exchange in log && Valid() && clock <= now && MIN64 <= now - hotDuration <= MAX64
      requires log[exchange].steady && startNano < now - hotDuration
      requires k < |log[exchange].offered| - |HotOf(exchange)| && Wanted(log[exchange].offered[k], startNano, endNano)
      ensures |ColdOf(exchange)| > 0
      ensures var t := log[exchange].offered[k];
              var cut := CutLog(ArrivedOf(log[exchange], HotOf(exchange)), |ColdOf(exchange)|)[k];
              && IdentityOf(cut) == IdentityOf(t)
              && (ShownCold(cut, startNano, endNano, now - hotDuration) <==> Millis(startNano) <= cut.timestamp)
              && (t.timestamp >= Millis(startNano) + NANOS_PER_MILLI ==> ShownCold(cut, startNano, endNano, now - hotDuration))
    {
      hide KeyValid, Wanted, ShownCold, IdentityOf, CutLog, Before;
      SteadyArrivals(hotBuffers[exchange], coldBuffers[exchange], window, clock - hotDuration, now - hotDuration, log[exchange], names);
      MigratedIsServedIff(ArrivedOf(log[exchange], HotOf(exchange)), |ColdOf(exchange)|, k, startNano, endNano, now - hotDuration);
    }

    lemma AnswerServesArrivals(exchange: string, answer: seq<TradeEvent>, startNano: int64, endNano: int64, now: int)
      requires exchange in hotBuffers && exchange in log && Valid() && MIN64 <= now - hotDuration <= MAX64
      requires Shows(answer, HotOf(exchange), AllHeld(ColdOf(exchange)), startNano, endNano, now - hotDuration)
      ensures Serves(exchange, answer, startNano, endNano, now)
    {
      hide Shows, AllHeld, BlocksBefore, Accounted, CB.Queue, CB.IndexSound, CR.CompressedRing.Valid, CR.BatchFits, SortedByTime, InRegime,
        AllCut, HotPart, ColdPart, CutLog, Views;
      var h, hot, cold := log[exchange], HotOf(exchange), ColdOf(exchange);
      assert KeyValid(hotBuffers[exchange], coldBuffers[exchange], window, clock - hotDuration, h, names);
      if h.steady && SortedByTime(h.offered) && InRegime(h.offered, names) {
        RingIsCutLog(cold, ArrivedOf(h, hot));
        ShownIsViewed(answer, hot, AllHeld(cold), CutLog(ArrivedOf(h, hot), |cold|), startNano, endNano, now - hotDuration);
      }
    }
  }

  lemma SteadyArrivals(hot: CB.CircularBuffer, cold: CR.CompressedRing, window: nat, boundary: int, later: int, h: History,
                       names: seq<string>)
    requires KeyValid(hot, cold, window, boundary, h, names) && boundary <= later && h.steady
    ensures hot.InStep() && hot.size <= |h.offered| && |cold.blocks[..]| > 0 && Before(ArrivedOf(h, hot.Contents()), later)
  {
    hide BlocksBefore, Accounted, CR.BatchFits, CB.Queue, CB.IndexSound, InWindow, AllCut, SortedByTime, InRegime;
  }

  lemma ShownIsViewed(answer: seq<TradeEvent>, hot: seq<TradeEvent>, held: seq<TradeEvent>, cut: seq<TradeEvent>,
                      startNano: int64, endNano: int64, hotStart: int64)
    requires Shows(answer, hot, held, startNano, endNano, hotStart) && Views(held) == Views(cut)
    ensures Views(answer) == Views(HotPart(hot, startNano, endNano, hotStart)) + Views(ColdPart(cut, startNano, endNano, hotStart))
  {
    var h, c := HotPart(hot, startNano, endNano, hotStart), ColdPart(held, startNano, endNano, hotStart);
    hide HotPart, ColdPart, Bag, SortedByTime;
    MultisetConcat(h, c);
    ReorderedBag(View(), answer, h + c);
    BagConcat(View(), h, c);
    ShownViews(held, cut, startNano, endNano, hotStart);
  }

  lemma LaterIsValid(hots: map<string, CB.CircularBuffer>, colds: map<string, CR.CompressedRing>, window: nat,
                     boundary: int, later: int, log: map<string, History>, names: seq<string>)
    requires TiersValid(hots, colds, window, boundary, log, names) && boundary <= later
    ensures TiersValid(hots, colds, window, later, log, names)
  {
    hide KeyValid;
    forall k | k in hots ensures KeyValid(hots[k], colds[k], window, later, log[k], names) {
      KeyValidLater(hots[k], colds[k], window, boundary, later, log[k], names);
    }
  }

  lemma SameKeys(hots: map<string, CB.CircularBuffer>, colds: map<string, CR.CompressedRing>, window: nat,
                 boundary: int, log: map<string, History>, names: seq<string>)
    requires TiersValid(hots, colds, window, boundary, log, names)
    ensures hots.Keys == colds.Keys == log.Keys
  {
    hide KeyValid;
  }

  lemma KeysApart(hots: map<string, CB.CircularBuffer>, colds: map<string, CR.CompressedRing>, window: nat,
                  boundary: int, log: map<string, History>, names: seq<string>)
    requires TiersValid(hots, colds, window, boundary, log, names)
    ensures Separate(hots, colds)
  {
    hide KeyValid;
  }

  lemma TierFactsAt(hots: map<string, CB.CircularBuffer>, colds: map<string, CR.CompressedRing>, key: string, window: nat,
                    boundary: int, log: map<string, History>, names: seq<string>)
    requires TiersValid(hots, colds, window, boundary, log, names) && key in hots && key in colds
    ensures hots[key].InStep() && hots[key].Valid() && colds[key].Valid(window)
  {
    hide KeyValid, BlocksBefore;
    KeyValidElim(hots[key], colds[key], window, boundary, log[key], names);
  }

  lemma TierFacts(hots: map<string, CB.CircularBuffer>, colds: map<string, CR.CompressedRing>, window: nat,
                  boundary: int, log: map<string, History>, names: seq<string>)
    requires TiersValid(hots, colds, window, boundary, log, names)
    ensures hots.Keys == colds.Keys == log.Keys
    ensures forall k :: k in hots ==>
      && hots[k].Valid() && hots[k].InStep() && colds[k].Valid(window) && !hots[k].closed && !colds[k].closed
      && BlocksBefore(colds[k].blocks[..], boundary) && hots[k].size <= |log[k].offered|
  {
    hide KeyValid, BlocksBefore;
    forall k | k in hots
      ensures hots[k].Valid() && hots[k].InStep() && colds[k].Valid(window) && !hots[k].closed && !colds[k].closed
      ensures BlocksBefore(colds[k].blocks[..], boundary) && hots[k].size <= |log[k].offered|
    {
      KeyValidElim(hots[k], colds[k], window, boundary, log[k], names);
    }
  }

  /** What a trade handed to the cold ring does: it concerns the trade's own block and no other. */
  ghost predicate ColdEffect(before: seq<Block>, after: seq<Block>, trade: TradeEvent, r: Answer) {
    && |after| == |before| > 0
    && var i := Home(trade, |before|);
       && after == before[i := after[i]]
       && CR.StoredInto(before[i], after[i], [trade], if r == Stored then CR.Done else CR.Refused)
  }

  /** A fresh store on one key of many. */
  method StoreHotForKey(hots: map<string, CB.CircularBuffer>, colds: map<string, CR.CompressedRing>, key: string,
                        trade: TradeEvent, ghost window: nat, ghost boundary: int, ghost later: int,
                        ghost log: map<string, History>, ghost names: seq<string>) returns (r: Answer)
    requires TiersValid(hots, colds, window, boundary, log, names) && boundary <= later && key in hots
    requires CR.BatchFits([trade], window, colds[key].capacity) && |log[key].offered| < MAX32
    modifies hots[key], hots[key].data
    ensures r == Stored
    ensures old(hots[key].size) + 1 < hots[key].capacity ==>
      && hots[key].InStep() && hots[key].Contents() == old(hots[key].Contents()) + [trade]
      && TiersValid(hots, colds, window, later, log[key := Grown(log[key], trade, false)], names)
  {
    hide KeyValid, CR.BatchFits, CB.Queue, CB.IndexSound, CB.CircularBuffer.Valid, CR.CompressedRing.Valid, BlocksBefore;
    KeyValidElim(hots[key], colds[key], window, boundary, log[key], names);
    r := StoreHot(hots[key], colds[key], trade, window, boundary, later, log[key], names);
    forall k | k in hots && k != key ensures KeyValid(hots[k], colds[k], window, later, log[k], names) {
      assert old(KeyValid(hots[k], colds[k], window, boundary, log[k], names));
      assert StorageOf(hots[k], colds[k]) !! StorageOf(hots[key], colds[key]);
      KeyValidLater(hots[k], colds[k], window, boundary, later, log[k], names);
    }
  }

  /** A late store on one key of many. */
  method StoreColdForKey(hots: map<string, CB.CircularBuffer>, colds: map<string, CR.CompressedRing>, key: string,
                         trade: TradeEvent, ghost window: nat, ghost boundary: int, ghost later: int,
                         ghost log: map<string, History>, ghost names: seq<string>) returns (r: Answer)
    requires TiersValid(hots, colds, window, boundary, log, names) && boundary <= later && key in hots
    requires CR.BatchFits([trade], window, colds[key].capacity) && |log[key].offered| < MAX32
    requires trade.timestamp * NANOS_PER_MILLI < later
    modifies colds[key].blocks, colds[key].compressor
    ensures hots[key].InStep() && hots[key].Contents() == old(hots[key].Contents())
    ensures ColdEffect(old(colds[key].blocks[..]), colds[key].blocks[..], trade, r)
    ensures TiersValid(hots, colds, window, later, log[key := Grown(log[key], trade, true)], names)
  {
    hide KeyValid, CR.StoredInto, CR.BatchFits, CB.Queue, CB.IndexSound, CB.CircularBuffer.Valid, CR.CompressedRing.Valid,
      BlocksBefore, Home;
    KeyValidElim(hots[key], colds[key], window, boundary, log[key], names);
    r := StoreCold(hots[key], colds[key], trade, window, boundary, later, log[key], names);
    KeyValidElim(hots[key], colds[key], window, later, Grown(log[key], trade, true), names);
    forall k | k in hots && k != key ensures KeyValid(hots[k], colds[k], window, later, log[k], names) {
      assert old(KeyValid(hots[k], colds[k], window, boundary, log[k], names));
      assert StorageOf(hots[k], colds[k]) !! StorageOf(hots[key], colds[key]);
      KeyValidLater(hots[k], colds[k], window, boundary, later, log[k], names);
    }
  }

  /** Mid-pass: the keys on the list still wait, the others have migrated. */
  ghost predicate Pass(hots: map<string, CB.CircularBuffer>, colds: map<string, CR.CompressedRing>, todo: set<string>,
                       window: nat, boundary: int, cutoff: int64, log: map<string, History>, names: seq<string>,
                       was: map<string, (seq<TradeEvent>, seq<Block>)>)
    reads AllStorage(hots, colds)
  {
    && Separate(hots, colds) && log.Keys == was.Keys == hots.Keys && boundary <= cutoff
    && forall k :: k in hots ==>
         Turn(hots[k], colds[k], window, boundary, cutoff, log[k], names, was[k], k !in todo)
  }

  /** The loop over the keys, in the arbitrary order of a map. */
  method MigrateAll(hots: map<string, CB.CircularBuffer>, colds: map<string, CR.CompressedRing>, ghost window: nat,
                    ghost boundary: int, cutoff: int64, ghost log: map<string, History>, ghost names: seq<string>)
    requires TiersValid(hots, colds, window, boundary, log, names) && boundary <= cutoff
    modifies AllStorage(hots, colds)
    ensures TiersValid(hots, colds, window, cutoff, log, names)
    ensures forall k :: k in hots ==>
      && hots[k].InStep()
      && Migrated(old(hots[k].Contents()), hots[k].Contents(), old(colds[k].blocks[..]), colds[k].blocks[..], Millis(cutoff))
  {
    hide Migrated, Millis, Pass, TiersValid, CB.Queue, CB.CircularBuffer.Valid, CR.CompressedRing.Valid, AllStorage;
    TierFacts(hots, colds, window, boundary, log, names);
    ghost var was := map k | k in hots :: (hots[k].Contents(), colds[k].blocks[..]);
    PassStarts(hots, colds, window, boundary, cutoff, log, names, was);
    var todo := hots.Keys;
    while todo != {}
      invariant todo <= hots.Keys && Pass(hots, colds, todo, window, boundary, cutoff, log, names, was)
      decreases |todo|
    {
      var key :| key in todo;
      MigrateNext(hots, colds, key, todo, window, boundary, cutoff, log, names, was);
      todo := todo - {key};
    }
    PassIsDone(hots, colds, window, boundary, cutoff, log, names, was);
  }

  lemma PassStarts(hots: map<string, CB.CircularBuffer>, colds: map<string, CR.CompressedRing>, window: nat, boundary: int,
                   cutoff: int64, log: map<string, History>, names: seq<string>,
                   was: map<string, (seq<TradeEvent>, seq<Block>)>)
    requires TiersValid(hots, colds, window, boundary, log, names) && boundary <= cutoff
    requires was.Keys == hots.Keys
    requires forall k :: k in hots ==> hots[k].InStep() && was[k] == (hots[k].Contents(), colds[k].blocks[..])
    ensures Pass(hots, colds, hots.Keys, window, boundary, cutoff, log, names, was)
  {
    hide KeyValid, Migrated, Millis;
  }

  lemma PassIsDone(hots: map<string, CB.CircularBuffer>, colds: map<string, CR.CompressedRing>, window: nat, boundary: int,
                   cutoff: int64, log: map<string, History>, names: seq<string>,
                   was: map<string, (seq<TradeEvent>, seq<Block>)>)
    requires Pass(hots, colds, {}, window, boundary, cutoff, log, names, was)
    ensures TiersValid(hots, colds, window, cutoff, log, names)
    ensures forall k :: k in hots ==>
      && hots[k].InStep()
      && Migrated(was[k].0, hots[k].Contents(), was[k].1, colds[k].blocks[..], Millis(cutoff))
  {
    hide KeyValid, Migrated, Millis;
    forall k | k in hots
      ensures KeyValid(hots[k], colds[k], window, cutoff, log[k], names) && hots[k].InStep()
      ensures Migrated(was[k].0, hots[k].Contents(), was[k].1, colds[k].blocks[..], Millis(cutoff))
    {
      assert Turn(hots[k], colds[k], window, boundary, cutoff, log[k], names, was[k], true);
      KeyValidElim(hots[k], colds[k], window, cutoff, log[k], names);
    }
  }

  lemma PartOfStorage(hots: map<string, CB.CircularBuffer>, colds: map<string, CR.CompressedRing>, key: string)
    requires key in hots && key in colds
    ensures StorageOf(hots[key], colds[key]) <= AllStorage(hots, colds)
  {
  }

  /** One turn of the loop. */
  method MigrateNext(hots: map<string, CB.CircularBuffer>, colds: map<string, CR.CompressedRing>, key: string,
                     ghost todo: set<string>, ghost window: nat, ghost boundary: int, cutoff: int64,
                     ghost log: map<string, History>, ghost names: seq<string>,
                     ghost was: map<string, (seq<TradeEvent>, seq<Block>)>)
    requires key in todo && key in hots && Pass(hots, colds, todo, window, boundary, cutoff, log, names, was)
    modifies AllStorage(hots, colds)
    ensures Pass(hots, colds, todo - {key}, window, boundary, cutoff, log, names, was)
  {
    hide Turn, AllStorage;
    PartOfStorage(hots, colds, key);
    assert Turn(hots[key], colds[key], window, boundary, cutoff, log[key], names, was[key], key !in todo);
    MigrateKey(hots[key], colds[key], window, boundary, cutoff, log[key], names, was[key]);
    forall k | k in hots && k != key
      ensures Turn(hots[k], colds[k], window, boundary, cutoff, log[k], names, was[k], k !in todo)
    {
      assert old(Turn(hots[k], colds[k], window, boundary, cutoff, log[k], names, was[k], k !in todo));
      assert StorageOf(hots[k], colds[k]) !! StorageOf(hots[key], colds[key]);
    }
  }

  lemma NewIsValid(hots: map<string, CB.CircularBuffer>, colds: map<string, CR.CompressedRing>, hotCapacity: int,
                   coldBlocks: nat, window: nat, boundary: int, names: seq<string>)
    requires AllNew(hots, colds, hotCapacity, coldBlocks, window, boundary, names)
    ensures TiersValid(hots, colds, window, boundary, map k | k in hots :: History([], true), names)
  {
    hide KeyValid;
    forall k | k in hots ensures KeyValid(hots[k], colds[k], window, boundary, History([], true), names) {
      assert NewKey(hots[k], colds[k], hotCapacity, coldBlocks, window, boundary, names);
    }
  }

  /** The rings of one market of one exchange. */
  method AddKey(hots: map<string, CB.CircularBuffer>, colds: map<string, CR.CompressedRing>, key: string, hotCapacity: int,
                coldBlocks: nat, ghost window: nat, ghost boundary: int, ghost names: seq<string>)
    returns (hots': map<string, CB.CircularBuffer>, colds': map<string, CR.CompressedRing>)
    requires hotCapacity > 0 && coldBlocks > 0 && AllNew(hots, colds, hotCapacity, coldBlocks, window, boundary, names)
    ensures AllNew(hots', colds', hotCapacity, coldBlocks, window, boundary, names)
    ensures hots'.Keys == hots.Keys + {key}
    ensures forall o :: o in AllStorage(hots', colds') ==> o in AllStorage(hots, colds) || fresh(o)
  {
    hide NewKey;
    var hot, cold := NewTiers(hotCapacity, coldBlocks, window, boundary, names);
    hots', colds' := hots[key := hot], colds[key := cold];
    forall k | k in hots ensures NewKey(hots[k], colds[k], hotCapacity, coldBlocks, window, boundary, names) {
      assert old(NewKey(hots[k], colds[k], hotCapacity, coldBlocks, window, boundary, names));
      assert forall o :: o in StorageOf(hots[k], colds[k]) ==> unchanged(o);
    }
    OneMoreNew(hots, colds, key, hot, cold, hotCapacity, coldBlocks, window, boundary, names);
    KeysGrow(hots, key, hot);
    StorageGrows(hots, colds, key, hot, cold);
  }

  /** Unused rings of their own join the others. */
  lemma OneMoreNew(hots: map<string, CB.CircularBuffer>, colds: map<string, CR.CompressedRing>, key: string,
                   hot: CB.CircularBuffer, cold: CR.CompressedRing, hotCapacity: int, coldBlocks: nat, window: nat,
                   boundary: int, names: seq<string>)
    requires AllNew(hots, colds, hotCapacity, coldBlocks, window, boundary, names)
    requires NewKey(hot, cold, hotCapacity, coldBlocks, window, boundary, names) && StorageOf(hot, cold) !! AllStorage(hots, colds)
    ensures AllNew(hots[key := hot], colds[key := cold], hotCapacity, coldBlocks, window, boundary, names)
  {
    hide NewKey, StorageOf, AllStorage;
    var hots', colds' := hots[key := hot], colds[key := cold];
    KeysGrow(hots, key, hot);
    KeysGrow(colds, key, cold);
    forall k | k in hots && k != key ensures StorageOf(hots'[k], colds'[k]) !! StorageOf(hot, cold) {
      PartOfStorage(hots, colds, k);
    }
  }

  lemma StorageGrows(hots: map<string, CB.CircularBuffer>, colds: map<string, CR.CompressedRing>, key: string,
                     hot: CB.CircularBuffer, cold: CR.CompressedRing)
    ensures forall o :: o in AllStorage(hots[key := hot], colds[key := cold]) ==>
              o in AllStorage(hots, colds) || o in StorageOf(hot, cold)
  {
    var hots', colds' := hots[key := hot], colds[key := cold];
    forall o | o in AllStorage(hots', colds') ensures o in AllStorage(hots, colds) || o in StorageOf(hot, cold) {
      var k :| k in hots' && k in colds' && o in StorageOf(hots'[k], colds'[k]);
      if k != key {
        assert k in hots && k in colds && o in StorageOf(hots[k], colds[k]);
      }
    }
  }

  lemma KeysGrow<K, V>(m: map<K, V>, k: K, v: V)
    ensures m[k := v].Keys == m.Keys + {k}
  {
  }

  lemma NoBuffers(hotCapacity: int, coldBlocks: nat, window: nat, boundary: int, names: seq<string>)
    ensures AllNew(map[], map[], hotCapacity, coldBlocks, window, boundary, names) && AllStorage(map[], map[]) == {}
  {
  }

  /** The nested loops over exchanges and markets. */
  method MakeBuffers(exchanges: seq<string>, markets: seq<string>, hotCapacity: int, coldBlocks: nat,
                     ghost window: nat, ghost boundary: int, ghost names: seq<string>)
    returns (hots: map<string, CB.CircularBuffer>, colds: map<string, CR.CompressedRing>)
    requires hotCapacity > 0 && coldBlocks > 0
    ensures AllNew(hots, colds, hotCapacity, coldBlocks, window, boundary, names) && hots.Keys == KeysOf(exchanges, markets)
    ensures fresh(AllStorage(hots, colds))
  {
    hide KeyOf, AllNew, AllStorage;
    hots, colds := map[], map[];
    NoBuffers(hotCapacity, coldBlocks, window, boundary, names);
    for i := 0 to |exchanges|
      invariant AllNew(hots, colds, hotCapacity, coldBlocks, window, boundary, names)
      invariant hots.Keys == KeysOf(exchanges[..i], markets) && fresh(AllStorage(hots, colds))
    {
      assert exchanges[..i + 1][..i] == exchanges[..i];
      for j := 0 to |markets|
        invariant AllNew(hots, colds, hotCapacity, coldBlocks, window, boundary, names)
        invariant hots.Keys == KeysOf(exchanges[..i], markets) + MarketKeys(exchanges[i], markets[..j])
        invariant fresh(AllStorage(hots, colds))
      {
        assert markets[..j + 1][..j] == markets[..j];
        hots, colds := AddKey(hots, colds, KeyOf(exchanges[i], markets[j]), hotCapacity, coldBlocks, window, boundary, names);
      }
      assert markets[..|markets|] == markets;
    }
    assert exchanges[..|exchanges|] == exchanges;
  }

  /** Separate rings, none used yet. */
  ghost predicate AllNew(hots: map<string, CB.CircularBuffer>, colds: map<string, CR.CompressedRing>, hotCapacity: int,
                         coldBlocks: nat, window: nat, boundary: int, names: seq<string>)
    reads AllStorage(hots, colds)
  {
    && Separate(hots, colds)
    && forall k :: k in hots ==> NewKey(hots[k], colds[k], hotCapacity, coldBlocks, window, boundary, names)
  }

  ghost predicate NewKey(hot: CB.CircularBuffer, cold: CR.CompressedRing, hotCapacity: int, coldBlocks: nat,
                         window: nat, boundary: int, names: seq<string>)
    reads StorageOf(hot, cold)
  {
    && hot.capacity == hotCapacity && cold.capacity == coldBlocks
    && KeyValid(hot, cold, window, boundary, History([], true), names) && hot.Contents() == []
  }
}
