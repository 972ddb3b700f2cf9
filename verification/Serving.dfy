/** What a query gets of the trades that were offered: recompression cuts the stamp of every migrated trade, so
    the cold tier answers for the cut stamps. In the codec's regime, with arrivals in time order, it answers for
    exactly those. */
module Serving {
  import opened Trades
  import opened Bags
  import opened BinaryFrame
  import opened DeltaCodec
  import opened CodecRoundTrip
  import opened CodecTheorems
  import opened Blocks
  import opened CompressedRings
  import opened Conservation
  import opened RepeatedMerges
  import opened Tiers

  /** A trade as a reader of the buffer sees it: what it is, and when. */
  function View(): TradeEvent -> (Identity, int) {
    (t: TradeEvent) => (IdentityOf(t), t.timestamp)
  }

  function Views(trades: seq<TradeEvent>): multiset<(Identity, int)> {
    Bag(View(), trades)
  }

  function CutView(t0: int64): TradeEvent -> (Identity, int) {
    (t: TradeEvent) => (IdentityOf(t), CutStamp(t0, t.timestamp))
  }

  // ----- one block -----

  /** A block holds the trades that arrived there, each cut to the grid of the earliest. */
  ghost predicate HeldIsCut(held: seq<TradeEvent>, group: seq<TradeEvent>) {
    && (group == [] ==> held == [])
    && (group != [] ==>
          var t0 := Earliest(group);
          && Views(held) == Bag(CutView(t0), group) && NoEarlier(held, t0) && Starts(held, t0) && OnSteps(held, t0))
  }

  lemma CutViews(after: seq<TradeEvent>, sorted: seq<TradeEvent>, t0: int64)
    requires |after| == |sorted| && forall i :: 0 <= i < |after| ==> IsCut(after[i], sorted[i], t0, true)
    ensures Views(after) == Bag(CutView(t0), sorted)
  {
    hide Bag, IdentityOf;
    forall i | 0 <= i < |after| ensures View()(after[i]) == CutView(t0)(sorted[i]) {
      assert IsCut(after[i], sorted[i], t0, true);
    }
    SameBag(View(), CutView(t0), after, sorted);
  }

  lemma OnStepsViews(held: seq<TradeEvent>, t0: int64)
    requires OnSteps(held, t0)
    ensures Bag(CutView(t0), held) == Views(held)
  {
    hide Bag, IdentityOf;
    forall i | 0 <= i < |held| ensures View()(held[i]) == CutView(t0)(held[i]) {
      assert held[i] in held && Cut(t0)(held[i]) == held[i].timestamp;
    }
    SameBag(CutView(t0), View(), held, held);
  }

  /** A merge with later arrivals cuts them to the same grid. */
  lemma MergeKeepsCut(held: seq<TradeEvent>, group: seq<TradeEvent>, new_: seq<TradeEvent>, after: seq<TradeEvent>, p: int,
                      names: seq<string>)
    requires HeldIsCut(held, group) && Merged(held, new_, after) && new_ != []
    requires OfPeriod(held, p) && OfPeriod(new_, p) && InRegime(held + new_, names)
    requires group != [] ==> NoEarlier(new_, Earliest(group))
    ensures HeldIsCut(after, group + new_)
  {
    var t0 := GridStays(held, group, new_);
    hide *;
    RegimeOfBoth(held, new_, names);
    var sorted := MergeCuts(held, new_, after, p, names);
    CutTradesStart(after, sorted, t0, InRegime(held + new_, names));
    CutViews(after, sorted, t0);
    ReorderedBag(CutView(t0), sorted, held + new_);
    BagConcat(CutView(t0), held, new_);
    OldViews(held, group, t0);
    BagConcat(CutView(t0), group, new_);
    HeldIsCutIntro(after, group + new_, t0);
  }

  lemma RegimeOfBoth(a: seq<TradeEvent>, b: seq<TradeEvent>, names: seq<string>)
    requires InRegime(a + b, names)
    ensures AllParse(a) && AllParse(b)
  {
    hide KnownNames, PairFits, IsWhole;
    forall i | 0 <= i < |a| ensures Parses(a[i]) {
      assert a[i] in a + b && Regular(a[i], names);
    }
    forall i | 0 <= i < |b| ensures Parses(b[i]) {
      assert b[i] in a + b && Regular(b[i], names);
    }
  }

  lemma GridStays(held: seq<TradeEvent>, group: seq<TradeEvent>, new_: seq<TradeEvent>) returns (t0: int64)
    requires HeldIsCut(held, group) && new_ != [] && (group != [] ==> NoEarlier(new_, Earliest(group)))
    ensures held + new_ != [] && group + new_ != [] && t0 == Earliest(held + new_) == Earliest(group + new_)
    ensures group != [] ==> t0 == Earliest(group)
  {
    hide Views, CutView, Bag, OnSteps;
    if group == [] {
      assert held + new_ == new_ == group + new_;
      t0 := Earliest(new_);
    } else {
      EarliestOfBoth(held, new_, Earliest(group), Earliest(new_));
      EarliestOfBoth(group, new_, Earliest(group), Earliest(new_));
      var first :| first in new_ && first.timestamp == Earliest(new_);
      t0 := Earliest(group);
    }
  }

  lemma OldViews(held: seq<TradeEvent>, group: seq<TradeEvent>, t0: int64)
    requires HeldIsCut(held, group) && (group != [] ==> t0 == Earliest(group))
    ensures Bag(CutView(t0), held) == Bag(CutView(t0), group)
  {
    if group != [] {
      OnStepsViews(held, t0);
    }
  }

  lemma HeldIsCutIntro(held: seq<TradeEvent>, group: seq<TradeEvent>, t0: int64)
    requires group != [] && t0 == Earliest(group)
    requires Views(held) == Bag(CutView(t0), group) && NoEarlier(held, t0) && Starts(held, t0) && OnSteps(held, t0)
    ensures HeldIsCut(held, group)
  {
  }

  // ----- the ring -----

  ghost predicate AllCut(blocks: seq<Block>, arrived: seq<TradeEvent>) {
    |blocks| > 0 && forall i :: 0 <= i < |blocks| ==> HeldIsCut(Held(blocks[i]), GroupOf(arrived, i, |blocks|))
  }

  lemma GroupConcat(a: seq<TradeEvent>, b: seq<TradeEvent>, i: nat, capacity: nat)
    requires capacity > 0
    ensures GroupOf(a + b, i, capacity) == GroupOf(a, i, capacity) + GroupOf(b, i, capacity)
  {
    FilterConcat(a, b, (t: TradeEvent) => Home(t, capacity) == i);
  }

  lemma LaterGroup(arrived: seq<TradeEvent>, moved: seq<TradeEvent>, i: nat, capacity: nat)
    requires capacity > 0 && SortedByTime(arrived + moved) && GroupOf(arrived, i, capacity) != []
    ensures NoEarlier(GroupOf(moved, i, capacity), Earliest(GroupOf(arrived, i, capacity)))
  {
    hide Home;
    GroupIsWithin(arrived, i, capacity);
    GroupIsWithin(moved, i, capacity);
    hide Earliest, GroupOf;
    assert Starts(GroupOf(arrived, i, capacity), Earliest(GroupOf(arrived, i, capacity)));
    var first :| first in GroupOf(arrived, i, capacity) && first.timestamp == Earliest(GroupOf(arrived, i, capacity));
    forall t | t in GroupOf(moved, i, capacity) ensures first.timestamp <= t.timestamp {
      EarlierFirst(arrived, moved, first, t);
    }
  }

  lemma EarlierFirst(a: seq<TradeEvent>, b: seq<TradeEvent>, t: TradeEvent, u: TradeEvent)
    requires SortedByTime(a + b) && t in a && u in b
    ensures t.timestamp <= u.timestamp
  {
    var i :| 0 <= i < |a| && a[i] == t;
    var j :| 0 <= j < |b| && b[j] == u;
    assert (a + b)[i] == t && (a + b)[|a| + j] == u;
  }

  lemma BlockKeepsCut(before: Block, after: Block, arrived: seq<TradeEvent>, moved: seq<TradeEvent>, i: nat, window: nat,
                      capacity: nat, names: seq<string>)
    requires i < capacity && Slotted(before, i, window, capacity) && BatchFits(moved, window, capacity)
    requires HeldIsCut(Held(before), GroupOf(arrived, i, capacity)) && SortedByTime(arrived + moved)
    requires InRegime(Held(before) + GroupOf(moved, i, capacity), names)
    requires Settled(before, after, GroupOf(moved, i, capacity), false)
    ensures HeldIsCut(Held(after), GroupOf(arrived + moved, i, capacity))
  {
    var group := GroupOf(moved, i, capacity);
    GroupConcat(arrived, moved, i, capacity);
    if group == [] {
      assert GroupOf(arrived, i, capacity) + group == GroupOf(arrived, i, capacity);
    } else {
      GroupHasHome(moved, i, window, capacity);
      if GroupOf(arrived, i, capacity) != [] {
        LaterGroup(arrived, moved, i, capacity);
      }
      hide HeldIsCut, InRegime, Held, GroupOf, Merged, BatchFits, Slotted, NoEarlier, SortedByTime;
      var p := OnePeriod(before, group, i, window, capacity);
      MergeKeepsCut(Held(before), GroupOf(arrived, i, capacity), group, Held(after), p, names);
    }
  }

  lemma GroupMembers(trades: seq<TradeEvent>, i: nat, capacity: nat)
    requires capacity > 0
    ensures forall k :: 0 <= k < |GroupOf(trades, i, capacity)| ==>
              GroupOf(trades, i, capacity)[k] in trades && Home(GroupOf(trades, i, capacity)[k], capacity) == i
  {
    hide Home;
    FilterMember(trades, (t: TradeEvent) => Home(t, capacity) == i);
    var group := GroupOf(trades, i, capacity);
    forall k | 0 <= k < |group| ensures Home(group[k], capacity) == i && group[k] in trades {
      assert group[k] in group;
    }
  }

  lemma GroupHasHome(trades: seq<TradeEvent>, i: nat, window: nat, capacity: nat)
    requires capacity > 0 && BatchFits(trades, window, capacity)
    ensures BatchFits(GroupOf(trades, i, capacity), window, capacity)
    ensures forall k :: 0 <= k < |GroupOf(trades, i, capacity)| ==> Home(GroupOf(trades, i, capacity)[k], capacity) == i
  {
    GroupMembers(trades, i, capacity);
    hide Home, Storable, GroupOf;
  }

  /** A batch keeps the ring cut. */
  lemma BatchKeepsCut(before: seq<Block>, after: seq<Block>, arrived: seq<TradeEvent>, moved: seq<TradeEvent>, window: nat,
                      names: seq<string>)
    requires AllCut(before, arrived) && SortedByTime(arrived + moved) && InWindow(before, window)
    requires BatchFits(moved, window, |before|) && BlocksInRegime(before, moved, names)
    requires |after| == |before| && AllSettled(before, after, moved)
    ensures AllCut(after, arrived + moved)
  {
    hide Held, HeldIsCut, GroupOf, Slotted, BatchFits, InRegime, Settled, SortedByTime;
    forall i | 0 <= i < |after| ensures HeldIsCut(Held(after[i]), GroupOf(arrived + moved, i, |after|)) {
      BlockKeepsCut(before[i], after[i], arrived, moved, i, window, |before|, names);
    }
  }

  // ----- all that arrived -----

  /** The grid of a block: its earliest arrival. */
  function GridOf(arrived: seq<TradeEvent>, i: nat, capacity: nat): int64
    requires capacity > 0
  {
    if GroupOf(arrived, i, capacity) == [] then 0 else Earliest(GroupOf(arrived, i, capacity))
  }

  function CutTrade(t: TradeEvent, t0: int64): (d: TradeEvent)
    ensures d.timestamp <= t.timestamp < d.timestamp + NANOS_PER_MILLI && IdentityOf(d) == IdentityOf(t)
    ensures View()(d) == CutView(t0)(t)
  {
    assert t0 <= t.timestamp ==> t0 <= CutStamp(t0, t.timestamp) <= t.timestamp < CutStamp(t0, t.timestamp) + NANOS_PER_MILLI by {
      if t0 <= t.timestamp {
        CutOnce(t0, t.timestamp);
      }
    }
    t.(timestamp := CutStamp(t0, t.timestamp))
  }

  /** The arrivals, each with its stamp cut to the grid of its block. */
  function CutLog(arrived: seq<TradeEvent>, capacity: nat): (log: seq<TradeEvent>)
    requires capacity > 0
    ensures |log| == |arrived|
  {
    seq(|arrived|, k requires 0 <= k < |arrived| => CutTrade(arrived[k], GridOf(arrived, Home(arrived[k], capacity), capacity)))
  }

  /** The view the ring has of one arrival. */
  function RingView(arrived: seq<TradeEvent>, capacity: nat): TradeEvent -> (Identity, int)
    requires capacity > 0
  {
    (t: TradeEvent) => CutView(GridOf(arrived, Home(t, capacity), capacity))(t)
  }

  lemma CutLogViews(arrived: seq<TradeEvent>, capacity: nat)
    requires capacity > 0
    ensures Views(CutLog(arrived, capacity)) == Bag(RingView(arrived, capacity), arrived)
  {
    hide Bag, GridOf, CutTrade, Home, CutView;
    SameBag(View(), RingView(arrived, capacity), CutLog(arrived, capacity), arrived);
  }

  lemma BlockViews(b: Block, arrived: seq<TradeEvent>, i: nat, capacity: nat)
    requires i < capacity && HeldIsCut(Held(b), GroupOf(arrived, i, capacity))
    ensures Views(Held(b)) == Bag(RingView(arrived, capacity), GroupOf(arrived, i, capacity))
  {
    var group := GroupOf(arrived, i, capacity);
    if group == [] {
      EmptyBags(RingView(arrived, capacity));
    } else {
      GroupViews(arrived, i, capacity);
    }
  }

  lemma GroupViews(arrived: seq<TradeEvent>, i: nat, capacity: nat)
    requires capacity > 0 && GroupOf(arrived, i, capacity) != []
    ensures var group := GroupOf(arrived, i, capacity);
            Bag(CutView(Earliest(group)), group) == Bag(RingView(arrived, capacity), group)
  {
    var group := GroupOf(arrived, i, capacity);
    GroupMembers(arrived, i, capacity);
    hide Bag, GroupOf, Home, CutView, Earliest;
    forall k | 0 <= k < |group| ensures CutView(Earliest(group))(group[k]) == RingView(arrived, capacity)(group[k]) {
      assert GridOf(arrived, i, capacity) == Earliest(group);
    }
    SameBag(CutView(Earliest(group)), RingView(arrived, capacity), group, group);
  }

  lemma EmptyBags(f: TradeEvent -> (Identity, int))
    ensures Bag(f, []) == Views([]) == multiset{}
  {
  }

  lemma NextHomeViews(f: TradeEvent -> (Identity, int), trades: seq<TradeEvent>, n: nat, capacity: nat)
    requires capacity > 0
    ensures Bag(f, FirstHomes(trades, n + 1, capacity)) == Bag(f, FirstHomes(trades, n, capacity)) + Bag(f, GroupOf(trades, n, capacity))
  {
    BagDivided(f, trades, (t: TradeEvent) => Home(t, capacity) < n + 1, (t: TradeEvent) => Home(t, capacity) < n,
               (t: TradeEvent) => Home(t, capacity) == n);
  }

  lemma {:induction false} FirstBlocksViews(blocks: seq<Block>, arrived: seq<TradeEvent>, n: nat)
    requires AllCut(blocks, arrived) && n <= |blocks|
    ensures Views(AllHeld(blocks[..n])) == Bag(RingView(arrived, |blocks|), FirstHomes(arrived, n, |blocks|))
  {
    if n == 0 {
      AllHomes(arrived, |blocks|);
      EmptyBags(RingView(arrived, |blocks|));
    } else {
      hide Bag, Held, HeldIsCut, GroupOf, FirstHomes, RingView, AllHeld;
      FirstBlocksViews(blocks, arrived, n - 1);
      HeldSnoc(blocks, n - 1);
      BagConcat(View(), AllHeld(blocks[..n - 1]), Held(blocks[n - 1]));
      BlockViews(blocks[n - 1], arrived, n - 1, |blocks|);
      NextHomeViews(RingView(arrived, |blocks|), arrived, n - 1, |blocks|);
    }
  }

  /** The whole ring holds the arrivals with their stamps cut, and nothing else. */
  lemma RingIsCutLog(blocks: seq<Block>, arrived: seq<TradeEvent>)
    requires AllCut(blocks, arrived)
    ensures |blocks| > 0 && Views(AllHeld(blocks)) == Views(CutLog(arrived, |blocks|))
  {
    hide Bag, HeldIsCut, Held, FirstHomes, RingView, CutLog, AllHeld, Views;
    FirstBlocksViews(blocks, arrived, |blocks|);
    AllHomes(arrived, |blocks|);
    CutLogViews(arrived, |blocks|);
    assert blocks[..|blocks|] == blocks;
  }

  // ----- queries -----

  lemma {:induction false} FilteredBag(s: seq<TradeEvent>, p: TradeEvent -> bool, q: ((Identity, int)) -> bool)
    requires forall t :: t in s ==> p(t) == q(View()(t))
    ensures forall x :: Views(Filter(s, p))[x] == if q(x) then Views(s)[x] else 0
  {
    if s != [] {
      var init, last := s[..|s| - 1], s[|s| - 1];
      assert s == init + [last];
      FilteredBag(init, p, q);
      BagOfLast(View(), s, p);
    }
  }

  /** A query of equal views gives equal views. */
  lemma ShownViews(a: seq<TradeEvent>, b: seq<TradeEvent>, startNano: int64, endNano: int64, hotStart: int64)
    requires Views(a) == Views(b)
    ensures Views(ColdPart(a, startNano, endNano, hotStart)) == Views(ColdPart(b, startNano, endNano, hotStart))
  {
    var lo, hi := Millis(startNano), Millis(if endNano < hotStart then endNano else hotStart);
    var p := (t: TradeEvent) => ShownCold(t, startNano, endNano, hotStart);
    var q := (x: (Identity, int)) => startNano < hotStart && lo <= x.1 <= hi;
    hide Views, Millis, IdentityOf;
    FilteredBag(a, p, q);
    FilteredBag(b, p, q);
    assert forall x :: Views(Filter(a, p))[x] == Views(Filter(b, p))[x];
  }

  /** Exactly which migrated trades a query past its start misses: those whose cut stamp fell before the start,
      so only trades of the first million milliseconds of the range. */
  lemma MigratedIsServedIff(arrived: seq<TradeEvent>, capacity: nat, k: nat, startNano: int64, endNano: int64, hotStart: int64)
    requires capacity > 0 && k < |arrived| && Before(arrived, hotStart) && startNano < hotStart
    requires Wanted(arrived[k], startNano, endNano)
    ensures var cut := CutLog(arrived, capacity)[k];
            && IdentityOf(cut) == IdentityOf(arrived[k])
            && (ShownCold(cut, startNano, endNano, hotStart) <==> Millis(startNano) <= cut.timestamp)
            && (arrived[k].timestamp >= Millis(startNano) + NANOS_PER_MILLI ==> ShownCold(cut, startNano, endNano, hotStart))
  {
    var t, cut := arrived[k], CutLog(arrived, capacity)[k];
    assert t in arrived && cut.timestamp <= t.timestamp < cut.timestamp + NANOS_PER_MILLI && IdentityOf(cut) == IdentityOf(t);
    hide CutLog, IdentityOf;
    ShownColdIff(cut, startNano, endNano, hotStart);
  }

  /** An input on which a query misses a migrated trade of its range: ten minutes after the first trade of the
      block, and cut back to it. */
  lemma MissedByCut(after: seq<TradeEvent>)
    requires Merged([], [TradeAt(1_000), TradeAt(601_000)], after)
    ensures Bag(Stamp(), after) == multiset{1_000, 1_000}
    ensures InRangeOf([TradeAt(1_000), TradeAt(601_000)], 600_000, 602_000) == [TradeAt(601_000)]
    ensures InRangeOf(after, 600_000, 602_000) == []
  {
    var a, b := TradeAt(1_000), TradeAt(601_000);
    LateSample();
    hide Bag, Cut, TradeAt, Merged, OfPeriod, AllParse, Earliest, NoEarlier, Starts, OnSteps, InRangeOf;
    MergeCutsAll([], [a, b], after, 0);
    BagOfOne(Cut(1_000), a);
    BagOfTwo(Cut(1_000), a, b);
    AllAlike(after, 1_000);
    OutOfRange(after, 600_000, 602_000);
    OnlySecond(a, b, 600_000, 602_000);
  }

  lemma OutOfRange(trades: seq<TradeEvent>, lo: int, hi: int)
    requires forall t :: t in trades ==> !InRange(t, lo, hi)
    ensures InRangeOf(trades, lo, hi) == []
  {
    FilterNone(trades, (t: TradeEvent) => InRange(t, lo, hi));
  }

  lemma OnlySecond(a: TradeEvent, b: TradeEvent, lo: int, hi: int)
    requires !InRange(a, lo, hi) && InRange(b, lo, hi)
    ensures InRangeOf([a, b], lo, hi) == [b]
  {
    FilterSnoc([a], b, (t: TradeEvent) => InRange(t, lo, hi));
    FilterOne(a, (t: TradeEvent) => InRange(t, lo, hi));
    assert [a] + [b] == [a, b] && [] + [b] == [b];
  }

  lemma LateSample()
    ensures var a, b := TradeAt(1_000), TradeAt(601_000);
            && a.timestamp == 1_000 && b.timestamp == 601_000 && Cut(1_000)(a) == Cut(1_000)(b) == 1_000
            && OfPeriod([], 0) && AllParse([]) && OfPeriod([a, b], 0) && AllParse([a, b]) && Earliest([] + [a, b]) == 1_000
  {
    var ab := [] + [TradeAt(1_000), TradeAt(601_000)];
    assert ab[0] in ab;
    hide Earliest;
    EarliestIsUnique(ab, 1_000);
  }

  // ----- what every state keeps -----

  /** The trades offered to a key, and whether all of them were young enough for the hot queue. */
  datatype History = History(offered: seq<TradeEvent>, steady: bool)

  /** What has left the hot queue of a steady key. */
  function ArrivedOf(h: History, hot: seq<TradeEvent>): seq<TradeEvent>
    requires |hot| <= |h.offered|
  {
    h.offered[..|h.offered| - |hot|]
  }

  /** A steady key's hot queue is the end of what was offered, everything before it lies before the boundary,
      and in time order and the codec's regime the cold ring holds just that, cut. */
  ghost predicate Steady(hot: seq<TradeEvent>, cold: seq<Block>, h: History, names: seq<string>, boundary: int) {
    h.steady ==>
      && |hot| <= |h.offered| && h.offered == ArrivedOf(h, hot) + hot
      && Before(ArrivedOf(h, hot), boundary)
      && (SortedByTime(h.offered) && InRegime(h.offered, names) ==> AllCut(cold, ArrivedOf(h, hot)))
  }

  lemma NothingIsSteady(blocks: seq<Block>, names: seq<string>, boundary: int)
    requires |blocks| > 0 && AllHeld(blocks) == []
    ensures Steady([], blocks, History([], true), names, boundary)
  {
    hide Held, AllHeld;
    forall i | 0 <= i < |blocks| ensures HeldIsCut(Held(blocks[i]), GroupOf([], i, |blocks|)) {
      if Held(blocks[i]) != [] {
        HeldIsInAllHeld(blocks, i, Held(blocks[i])[0]);
      }
    }
  }

  lemma SteadyLater(hot: seq<TradeEvent>, cold: seq<Block>, h: History, names: seq<string>, boundary: int, later: int)
    requires Steady(hot, cold, h, names, boundary) && boundary <= later
    ensures Steady(hot, cold, h, names, later)
  {
    hide AllCut, SortedByTime, InRegime;
  }

  /** A young trade goes behind the others. */
  lemma SteadyStore(hot: seq<TradeEvent>, cold: seq<Block>, h: History, names: seq<string>, boundary: int, t: TradeEvent)
    requires Steady(hot, cold, h, names, boundary)
    ensures Steady(hot + [t], cold, History(h.offered + [t], h.steady), names, boundary)
  {
    if h.steady {
      var after := History(h.offered + [t], true);
      assert ArrivedOf(after, hot + [t]) == ArrivedOf(h, hot);
      assert after.offered == ArrivedOf(h, hot) + (hot + [t]);
      if SortedByTime(after.offered) {
        SortedPrefix(h.offered, t);
      }
      LongerLog(h.offered, t, names);
    }
    hide AllCut, InRegime, SortedByTime, Before;
  }

  lemma SortedPrefix(trades: seq<TradeEvent>, t: TradeEvent)
    requires SortedByTime(trades + [t])
    ensures SortedByTime(trades)
  {
    forall i, j | 0 <= i < j < |trades| ensures trades[i].timestamp <= trades[j].timestamp {
      assert (trades + [t])[i] == trades[i] && (trades + [t])[j] == trades[j];
    }
  }

  /** A migration. */
  lemma SteadyMove(hot: seq<TradeEvent>, m: nat, before: seq<Block>, after: seq<Block>, h: History, names: seq<string>,
                   boundary: int, cutoff: int, r: Status, window: nat)
    requires m <= |hot| && Steady(hot, before, h, names, boundary) && boundary <= cutoff && Before(hot[..m], cutoff)
    requires InTransit(hot[m..], hot[..m], before, h.offered, names) && InWindow(before, window)
    requires Outcome(before, after, hot[..m], r) && BatchFits(hot[..m], window, |before|)
    ensures Steady(hot[m..], after, h, names, cutoff)
  {
    var rest, moved := hot[m..], hot[..m];
    if h.steady {
      var arrived := ArrivedOf(h, hot);
      StillSplit(h.offered, arrived, hot, m);
      assert ArrivedOf(h, rest) == arrived + moved;
      BeforeBoth(arrived, moved, boundary, cutoff);
      if SortedByTime(h.offered) && InRegime(h.offered, names) {
        SortedParts(arrived + moved, rest);
        DoneInRegime(rest, moved, before, after, h.offered, names, r, window);
        hide *;
        BatchKeepsCut(before, after, arrived, moved, window, names);
      }
    }
    hide AllCut, InRegime, SortedByTime, Before, InTransit, InWindow, Outcome, BatchFits;
  }

  lemma StillSplit<T>(all: seq<T>, a: seq<T>, b: seq<T>, m: nat)
    requires all == a + b && m <= |b|
    ensures all == (a + b[..m]) + b[m..] && |b[m..]| <= |all| && all[..|all| - |b[m..]|] == a + b[..m]
  {
  }

  lemma BeforeBoth(a: seq<TradeEvent>, b: seq<TradeEvent>, boundary: int, cutoff: int)
    requires Before(a, boundary) && Before(b, cutoff) && boundary <= cutoff
    ensures Before(a + b, cutoff)
  {
  }

  lemma SortedParts(a: seq<TradeEvent>, b: seq<TradeEvent>)
    requires SortedByTime(a + b)
    ensures SortedByTime(a)
  {
    forall i, j | 0 <= i < j < |a| ensures a[i].timestamp <= a[j].timestamp {
      assert (a + b)[i] == a[i] && (a + b)[j] == a[j];
    }
  }

  /** In the regime no batch is refused. */
  lemma DoneInRegime(rest: seq<TradeEvent>, moved: seq<TradeEvent>, before: seq<Block>, after: seq<Block>, log: seq<TradeEvent>,
                     names: seq<string>, r: Status, window: nat)
    requires InTransit(rest, moved, before, log, names) && InRegime(log, names) && InWindow(before, window)
    requires Outcome(before, after, moved, r)
    ensures |before| == |after| > 0 && BlocksInRegime(before, moved, names) && AllSettled(before, after, moved)
  {
    RegimeIsPriced(log, names);
    TransitIsInRegime(rest, moved, before, log, names);
    hide InRegime, BlocksInRegime, InWindow, AllSettled, AllGrown, AllStartWell, SomeStartsBadly, TotalEvents, Identities, AllHeld;
    PricedArrives(before, after, moved, r, window);
  }
}
