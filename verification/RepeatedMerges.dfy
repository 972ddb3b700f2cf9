/** A block merged many times over: every merge cuts the stamps to the grid of the earliest stamp so far.
    How often a stamp is cut, and what that costs, is decided by how that earliest stamp moves. */
module RepeatedMerges {
  import opened Trades
  import opened Bags
  import opened BinaryFrame
  import opened DeltaCodec
  import opened CodecRoundTrip
  import opened CodecTheorems
  import opened Blocks
  import opened Conservation

  function Stamp(): TradeEvent -> int {
    (t: TradeEvent) => t.timestamp
  }

  /** A stamp on the grid of steps of a million from t0. */
  function CutStamp(t0: int64, timestamp: int64): int {
    if timestamp < t0 then timestamp else Floored(t0, timestamp)
  }

  function Cut(t0: int64): TradeEvent -> int {
    (t: TradeEvent) => CutStamp(t0, t.timestamp)
  }

  predicate NoEarlier(trades: seq<TradeEvent>, t0: int64) {
    forall t :: t in trades ==> t0 <= t.timestamp
  }

  predicate Starts(trades: seq<TradeEvent>, t0: int64) {
    exists t :: t in trades && t.timestamp == t0
  }

  predicate OnSteps(trades: seq<TradeEvent>, t0: int64) {
    forall t :: t in trades ==> Cut(t0)(t) == t.timestamp
  }

  /** The earliest stamp. */
  function Earliest(trades: seq<TradeEvent>): (t0: int64)
    requires trades != []
    ensures NoEarlier(trades, t0) && Starts(trades, t0)
  {
    var last := trades[|trades| - 1];
    assert trades == trades[..|trades| - 1] + [last];
    if |trades| == 1 then last.timestamp
    else
      var before := Earliest(trades[..|trades| - 1]);
      if last.timestamp < before then last.timestamp else before
  }

  lemma EarliestIsUnique(trades: seq<TradeEvent>, t0: int64)
    requires trades != [] && NoEarlier(trades, t0) && Starts(trades, t0)
    ensures Earliest(trades) == t0
  {
  }

  lemma CutOnce(t0: int64, t: int64)
    requires t0 <= t
    ensures t0 <= CutStamp(t0, t) <= t < CutStamp(t0, t) + NANOS_PER_MILLI
    ensures CutStamp(t0, CutStamp(t0, t)) == CutStamp(t0, t)
  {
    FlooredIsOnGrid(t0, t);
  }

  /** How far a grid that starts at t1 lies below one that starts at t0. */
  function Shift(t0: int64, t1: int64): (d: nat)
    ensures d < NANOS_PER_MILLI
  {
    (t0 - t1) % NANOS_PER_MILLI
  }

  /** A stamp on one grid, cut to an earlier one, moves by exactly the shift. */
  lemma CutMoves(t0: int64, t1: int64, t: int64)
    requires t1 <= t0 <= t && CutStamp(t0, t) == t
    ensures CutStamp(t1, t) == t - Shift(t0, t1)
  {
    var k, d := (t - t0) / NANOS_PER_MILLI, t0 - t1;
    assert t - t1 == d + k * NANOS_PER_MILLI;
  }

  // ----- one merge -----

  /** What a merge makes of one trade: its stamp is cut to the grid of t0, and in the codec's regime its
      identity stays. */
  ghost predicate IsCut(d: TradeEvent, t: TradeEvent, t0: int64, regular: bool) {
    && d.timestamp == Cut(t0)(t) && t0 <= d.timestamp && Cut(t0)(d) == d.timestamp
    && (regular ==> IdentityOf(d) == IdentityOf(t))
  }

  lemma ImageIsCutAt(sorted: seq<TradeEvent>, unique: seq<string>, names: seq<string>, t0: int64, i: nat)
    requires i < |sorted| && AllParse(sorted) && SortedByTime(sorted) && TimesFit(sorted, |sorted|) && Lists(unique, sorted)
    requires sorted[0].timestamp == t0
    ensures IsCut(Image(sorted, unique)[i], sorted[i], t0, InRegime(sorted, names))
    ensures i == 0 ==> Image(sorted, unique)[i].timestamp == t0
  {
    TimeFieldClose(sorted, unique, i);
    CutOnce(t0, sorted[i].timestamp);
    if InRegime(sorted, names) {
      ImageKeepsIdentityAt(sorted, unique, names, i);
    }
    hide Image, AllParse, TimesFit, InRegime, Lists;
  }

  lemma FirstParses(trades: seq<TradeEvent>)
    requires trades != [] && AllParse(trades)
    ensures trades[0].price.Num?
  {
  }

  lemma SymbolsAreByteStrings(sorted: seq<TradeEvent>, unique: seq<string>)
    requires Lists(unique, sorted) && forall i :: 0 <= i < |sorted| ==> Storable(sorted[i])
    ensures AreByteStrings(unique)
  {
  }

  lemma MergedFacts(old_: seq<TradeEvent>, new_: seq<TradeEvent>, sorted: seq<TradeEvent>, p: int)
    requires multiset(sorted) == multiset(old_ + new_) && SortedByTime(sorted) && sorted != []
    requires OfPeriod(old_, p) && OfPeriod(new_, p) && AllParse(old_) && AllParse(new_)
    ensures OfPeriod(sorted, p) && AllParse(sorted) && old_ + new_ != [] && sorted[0].timestamp == Earliest(old_ + new_)
  {
    hide Storable, Earliest;
    forall i | 0 <= i < |sorted| ensures sorted[i] in old_ + new_ {
      assert sorted[i] in multiset(sorted);
    }
    var first :| first in old_ + new_ && first.timestamp == Earliest(old_ + new_);
    assert first in multiset(old_ + new_) && first in sorted;
  }

  /** Trade by trade: a merge is the old and new trades in some order, each cut to the grid of the earliest. */
  lemma MergeCuts(old_: seq<TradeEvent>, new_: seq<TradeEvent>, after: seq<TradeEvent>, p: int, names: seq<string>)
    returns (sorted: seq<TradeEvent>)
    requires Merged(old_, new_, after) && OfPeriod(old_, p) && OfPeriod(new_, p) && AllParse(old_) && AllParse(new_)
    ensures multiset(sorted) == multiset(old_ + new_) && |after| == |sorted| == |old_ + new_| > 0
    ensures forall i :: 0 <= i < |after| ==>
              IsCut(after[i], sorted[i], Earliest(old_ + new_), InRegime(old_ + new_, names))
    ensures after[0].timestamp == Earliest(old_ + new_) && OfPeriod(after, p) && AllParse(after)
  {
    hide Image, Lists, IsCut, InRegime, Earliest;
    var unique: seq<string>;
    sorted, unique :| IsMerge(old_, new_, after, sorted, unique);
    assert multiset(sorted) == multiset(old_ + new_);
    assert |multiset(sorted)| == |sorted| && |multiset(old_ + new_)| == |old_ + new_|;
    MergedFacts(old_, new_, sorted, p);
    PeriodFitsDelta(sorted, p);
    SymbolsAreByteStrings(sorted, unique);
    FirstParses(sorted);
    ImageStaysInPeriod(sorted, unique, p);
    if InRegime(old_ + new_, names) {
      ReorderedRegime(old_ + new_, sorted, names);
    }
    hide AllParse, OfPeriod, TimesFit;
    forall i | 0 <= i < |after| ensures IsCut(after[i], sorted[i], Earliest(old_ + new_), InRegime(old_ + new_, names)) {
      ImageIsCutAt(sorted, unique, names, Earliest(old_ + new_), i);
      LessRegular(after[i], sorted[i], Earliest(old_ + new_), InRegime(sorted, names), InRegime(old_ + new_, names));
    }
    ImageIsCutAt(sorted, unique, names, Earliest(old_ + new_), 0);
  }

  lemma LessRegular(d: TradeEvent, t: TradeEvent, t0: int64, regular: bool, less: bool)
    requires IsCut(d, t, t0, regular) && (less ==> regular)
    ensures IsCut(d, t, t0, less)
  {
  }

  lemma CutTradesStart(after: seq<TradeEvent>, sorted: seq<TradeEvent>, t0: int64, regular: bool)
    requires |after| == |sorted| > 0 && after[0].timestamp == t0
    requires forall i :: 0 <= i < |after| ==> IsCut(after[i], sorted[i], t0, regular)
    ensures NoEarlier(after, t0) && Starts(after, t0) && OnSteps(after, t0)
  {
    assert after[0] in after;
    forall t | t in after ensures t0 <= t.timestamp && Cut(t0)(t) == t.timestamp {
      var i :| 0 <= i < |after| && after[i] == t;
      assert IsCut(after[i], sorted[i], t0, regular);
    }
  }

  /** The stamps after a merge: all of them, old and new, cut to the grid of the earliest. */
  lemma MergeCutsAll(old_: seq<TradeEvent>, new_: seq<TradeEvent>, after: seq<TradeEvent>, p: int)
    requires Merged(old_, new_, after) && OfPeriod(old_, p) && OfPeriod(new_, p) && AllParse(old_) && AllParse(new_)
    ensures |after| == |old_| + |new_| > 0
    ensures var t0 := Earliest(old_ + new_);
            && Bag(Stamp(), after) == Bag(Cut(t0), old_) + Bag(Cut(t0), new_)
            && NoEarlier(after, t0) && Starts(after, t0) && OnSteps(after, t0)
    ensures OfPeriod(after, p) && AllParse(after)
  {
    hide *;
    var sorted := MergeCuts(old_, new_, after, p, []);
    var t0 := Earliest(old_ + new_);
    CutTradesStart(after, sorted, t0, InRegime(old_ + new_, []));
    CutBags(after, sorted, t0, InRegime(old_ + new_, []));
    ReorderedBag(Cut(t0), sorted, old_ + new_);
    BagConcat(Cut(t0), old_, new_);
  }

  lemma CutBags(after: seq<TradeEvent>, sorted: seq<TradeEvent>, t0: int64, regular: bool)
    requires |after| == |sorted| && forall i :: 0 <= i < |after| ==> IsCut(after[i], sorted[i], t0, regular)
    ensures Bag(Stamp(), after) == Bag(Cut(t0), sorted)
  {
    hide Bag;
    forall i | 0 <= i < |after| ensures Stamp()(after[i]) == Cut(t0)(sorted[i]) {
      assert IsCut(after[i], sorted[i], t0, regular);
    }
    SameBag(Stamp(), Cut(t0), after, sorted);
  }

  /** What a merge does to the stamps already in a block: every one of them moves by the shift of the grid. */
  lemma OldStampsMove(old_: seq<TradeEvent>, t0: int64, t1: int64)
    requires NoEarlier(old_, t0) && OnSteps(old_, t0) && t1 <= t0
    ensures forall t :: t in old_ ==> Cut(t1)(t) == t.timestamp - Shift(t0, t1)
  {
    forall t | t in old_ ensures Cut(t1)(t) == t.timestamp - Shift(t0, t1) {
      CutMoves(t0, t1, t.timestamp);
    }
  }

  /** Exactly when a merge leaves the old stamps alone: when the earliest new stamp is not older, or older by
      whole steps. */
  lemma OldStampsStayIff(old_: seq<TradeEvent>, new_: seq<TradeEvent>, after: seq<TradeEvent>, p: int, t0: int64, t1: int64)
    requires Merged(old_, new_, after) && OfPeriod(old_, p) && OfPeriod(new_, p) && AllParse(old_) && AllParse(new_)
    requires NoEarlier(old_, t0) && Starts(old_, t0) && OnSteps(old_, t0) && NoEarlier(new_, t1) && Starts(new_, t1)
    ensures var lowest := if t1 < t0 then t1 else t0;
            Bag(Stamp(), after) == Bag(Stamp(), old_) + Bag(Cut(lowest), new_)
            <==> t1 >= t0 || (t0 - t1) % NANOS_PER_MILLI == 0
  {
    hide Bag, Merged, OfPeriod, AllParse, NoEarlier, Starts, OnSteps, Cut, Stamp, Earliest;
    var lowest := if t1 < t0 then t1 else t0;
    EarliestOfBoth(old_, new_, t0, t1);
    MergeCutsAll(old_, new_, after, p);
    CutBagStaysIff(old_, t0, lowest);
    CancelRight(Bag(Stamp(), old_), Bag(Cut(lowest), old_), Bag(Cut(lowest), new_));
  }

  lemma CutBagStaysIff(old_: seq<TradeEvent>, t0: int64, t1: int64)
    requires NoEarlier(old_, t0) && Starts(old_, t0) && OnSteps(old_, t0) && t1 <= t0
    ensures Bag(Stamp(), old_) == Bag(Cut(t1), old_) <==> (t0 - t1) % NANOS_PER_MILLI == 0
  {
    OldStampsMove(old_, t0, t1);
    hide Bag, Cut, OnSteps;
    var low := t0 - Shift(t0, t1);
    if Shift(t0, t1) == 0 {
      forall i | 0 <= i < |old_| ensures Stamp()(old_[i]) == Cut(t1)(old_[i]) {
        assert old_[i] in old_;
      }
      SameBag(Stamp(), Cut(t1), old_, old_);
    } else {
      var first :| first in old_ && first.timestamp == t0;
      assert Cut(t1)(first) == low;
      BagMember(Cut(t1), old_, low);
      BagMember(Stamp(), old_, low);
    }
  }

  lemma CancelRight<U>(a: multiset<U>, b: multiset<U>, c: multiset<U>)
    ensures a + c == b + c ==> a == b
  {
    if a + c == b + c {
      forall x ensures a[x] == b[x] {
        assert (a + c)[x] == (b + c)[x];
      }
    }
  }

  lemma EarliestOfBoth(old_: seq<TradeEvent>, new_: seq<TradeEvent>, t0: int64, t1: int64)
    requires NoEarlier(old_, t0) && Starts(old_, t0) && NoEarlier(new_, t1) && Starts(new_, t1)
    ensures old_ + new_ != [] && Earliest(old_ + new_) == if t1 < t0 then t1 else t0
  {
    var first :| first in (if t1 < t0 then new_ else old_) && first.timestamp == if t1 < t0 then t1 else t0;
    assert first in old_ + new_;
    EarliestIsUnique(old_ + new_, if t1 < t0 then t1 else t0);
  }

  // ----- any number of merges -----

  /** Group after group is merged into a block that starts empty. */
  ghost predicate MergeRun(states: seq<seq<TradeEvent>>, groups: seq<seq<TradeEvent>>) {
    && |states| == |groups| + 1 && states[0] == []
    && forall k :: 0 <= k < |groups| ==> Merged(states[k], groups[k], states[k + 1])
  }

  predicate Arriving(groups: seq<seq<TradeEvent>>, p: int) {
    forall k :: 0 <= k < |groups| ==> groups[k] != [] && OfPeriod(groups[k], p) && AllParse(groups[k])
  }

  lemma ArrivingIsNotEmpty(groups: seq<seq<TradeEvent>>, p: int)
    requires Arriving(groups, p) && groups != []
    ensures Concat(groups) != []
  {
    assert groups[|groups| - 1] != [];
  }

  /** The stamps of all arrivals, each cut to the grid in force when it arrived and never again. */
  function CutOnArrival(groups: seq<seq<TradeEvent>>, p: int): seq<int>
    requires Arriving(groups, p)
  {
    if groups == [] then []
    else
      var n := |groups| - 1;
      ArrivingIsNotEmpty(groups, p);
      ArrivingPart(groups, p, n);
      CutOnArrival(groups[..n], p) + Values(Cut(Earliest(Concat(groups))), groups[n])
  }

  lemma FirstGroupsArrive(groups: seq<seq<TradeEvent>>, p: int, n: nat)
    requires Arriving(groups, p) && 0 < n <= |groups|
    ensures Arriving(groups[..n], p) && Concat(groups[..n]) != []
  {
    ArrivingPart(groups, p, n);
    hide Arriving, Concat;
    ArrivingIsNotEmpty(groups[..n], p);
  }

  lemma ArrivingPart(groups: seq<seq<TradeEvent>>, p: int, n: nat)
    requires Arriving(groups, p) && n <= |groups|
    ensures Arriving(groups[..n], p)
  {
    hide OfPeriod, AllParse;
  }

  /** How far the grid moves when the n-th group arrives. */
  function ShiftAt(groups: seq<seq<TradeEvent>>, p: int, n: nat): nat
    requires Arriving(groups, p) && 0 < n < |groups|
  {
    FirstGroupsArrive(groups, p, n);
    FirstGroupsArrive(groups, p, n + 1);
    Shift(Earliest(Concat(groups[..n])), Earliest(Concat(groups[..n + 1])))
  }

  /** What a caller can check: no group's earliest stamp is older than all before it, except by whole steps. */
  predicate WholeSteps(groups: seq<seq<TradeEvent>>, p: int)
    requires Arriving(groups, p)
  {
    forall n :: 0 < n < |groups| ==> ShiftAt(groups, p, n) == 0
  }

  /** All that is lost by cutting again: every shift moves every trade already there. */
  function Drift(groups: seq<seq<TradeEvent>>, p: int): nat
    requires Arriving(groups, p)
  {
    if |groups| <= 1 then 0
    else
      var n := |groups| - 1;
      ArrivingPart(groups, p, n);
      PositiveTimes(|Concat(groups[..n])|, ShiftAt(groups, p, n));
      Drift(groups[..n], p) + |Concat(groups[..n])| * ShiftAt(groups, p, n)
  }

  function Total(values: seq<int>): int {
    if values == [] then 0 else Total(values[..|values| - 1]) + values[|values| - 1]
  }

  function Values(f: TradeEvent -> int, trades: seq<TradeEvent>): (v: seq<int>)
    ensures |v| == |trades|
  {
    if trades == [] then [] else Values(f, trades[..|trades| - 1]) + [f(trades[|trades| - 1])]
  }

  lemma {:induction false} BagIsValues(f: TradeEvent -> int, trades: seq<TradeEvent>)
    ensures Bag(f, trades) == multiset(Values(f, trades))
  {
    if trades != [] {
      BagIsValues(f, trades[..|trades| - 1]);
    }
  }

  lemma {:induction false} TotalConcat(a: seq<int>, b: seq<int>)
    ensures Total(a + b) == Total(a) + Total(b)
  {
    if b == [] {
      assert a + b == a;
    } else {
      assert (a + b)[..|a + b| - 1] == a + b[..|b| - 1];
      TotalConcat(a, b[..|b| - 1]);
    }
  }

  lemma {:induction false} TotalOfPermutation(a: seq<int>, b: seq<int>)
    requires multiset(a) == multiset(b)
    ensures Total(a) == Total(b)
    decreases |a|
  {
    if a == [] {
      assert |multiset(b)| == |b|;
    } else {
      var n := |a| - 1;
      assert a[n] in multiset(a) && a[n] in b;
      var k :| 0 <= k < |b| && b[k] == a[n];
      TakeOut(a, n);
      TakeOut(b, k);
      assert a[..n] + a[n + 1..] == a[..n];
      TotalOfPermutation(a[..n], b[..k] + b[k + 1..]);
      TotalWithout(b, k);
    }
  }

  lemma TotalWithout(b: seq<int>, k: nat)
    requires k < |b|
    ensures Total(b) == Total(b[..k] + b[k + 1..]) + b[k]
  {
    assert b == (b[..k] + [b[k]]) + b[k + 1..];
    TotalConcat(b[..k] + [b[k]], b[k + 1..]);
    TotalConcat(b[..k], [b[k]]);
    TotalConcat(b[..k], b[k + 1..]);
    assert [b[k]][..0] == [];
  }

  /** Trades that all move by d. */
  lemma {:induction false} TotalMoves(f: TradeEvent -> int, g: TradeEvent -> int, trades: seq<TradeEvent>, d: int)
    requires forall t :: t in trades ==> g(t) == f(t) - d
    ensures Total(Values(g, trades)) == Total(Values(f, trades)) - |trades| * d
  {
    if trades != [] {
      var init, last := trades[..|trades| - 1], trades[|trades| - 1];
      assert trades == init + [last];
      TotalMoves(f, g, init, d);
      assert |trades| * d == |init| * d + d;
      assert Values(g, trades)[..|init|] == Values(g, init) && Values(f, trades)[..|init|] == Values(f, init);
    }
  }

  lemma BagsTotal(f: TradeEvent -> int, g: TradeEvent -> int, after: seq<TradeEvent>, a: seq<TradeEvent>, b: seq<TradeEvent>)
    requires Bag(f, after) == Bag(g, a) + Bag(g, b)
    ensures Total(Values(f, after)) == Total(Values(g, a)) + Total(Values(g, b))
  {
    BagIsValues(f, after);
    BagIsValues(g, a);
    BagIsValues(g, b);
    MultisetConcat(Values(g, a), Values(g, b));
    TotalOfPermutation(Values(f, after), Values(g, a) + Values(g, b));
    TotalConcat(Values(g, a), Values(g, b));
  }

  /** What a block holds after a run of merges. */
  ghost predicate RunHolds(held: seq<TradeEvent>, groups: seq<seq<TradeEvent>>, p: int)
    requires Arriving(groups, p)
  {
    && OfPeriod(held, p) && AllParse(held) && |held| == |Concat(groups)|
    && (groups == [] ==> held == [])
    && (groups != [] ==>
          Concat(groups) != [] && var t0 := Earliest(Concat(groups)); NoEarlier(held, t0) && Starts(held, t0) && OnSteps(held, t0))
    && Total(Values(Stamp(), held)) == Total(CutOnArrival(groups, p)) - Drift(groups, p)
    && (WholeSteps(groups, p) ==> Bag(Stamp(), held) == multiset(CutOnArrival(groups, p)))
  }

  lemma EarliestOfConcat(held: seq<TradeEvent>, before: seq<TradeEvent>, group: seq<TradeEvent>)
    requires before != [] && group != [] && NoEarlier(held, Earliest(before)) && Starts(held, Earliest(before))
    ensures held + group != [] && before + group != [] && Earliest(held + group) == Earliest(before + group) <= Earliest(before)
  {
    var t0, t1 := Earliest(before), Earliest(group);
    EarliestOfBoth(held, group, t0, t1);
    EarliestOfBoth(before, group, t0, t1);
  }

  lemma FirstMergeHolds(held: seq<TradeEvent>, groups: seq<seq<TradeEvent>>, p: int)
    requires |groups| == 1 && Arriving(groups, p) && Merged([], groups[0], held)
    ensures RunHolds(held, groups, p)
  {
    hide *;
    var group := groups[0];
    OneGroup(groups, p);
    ArrivingNone(p);
    assert [] + group == group;
    MergeCutsAll([], group, held, p);
    var t0 := Earliest(group);
    BagIsValues(Cut(t0), group);
    BagIsValues(Stamp(), held);
    TotalOfPermutation(Values(Stamp(), held), CutOnArrival(groups, p));
    RunHoldsIntro(held, groups, p);
  }

  lemma RunHoldsIntro(held: seq<TradeEvent>, groups: seq<seq<TradeEvent>>, p: int)
    requires Arriving(groups, p) && Concat(groups) != [] && OfPeriod(held, p) && AllParse(held) && |held| == |Concat(groups)|
    requires var t0 := Earliest(Concat(groups)); NoEarlier(held, t0) && Starts(held, t0) && OnSteps(held, t0)
    requires Total(Values(Stamp(), held)) == Total(CutOnArrival(groups, p)) - Drift(groups, p)
    requires WholeSteps(groups, p) ==> Bag(Stamp(), held) == multiset(CutOnArrival(groups, p))
    ensures RunHolds(held, groups, p)
  {
    hide OfPeriod, AllParse, Earliest, NoEarlier, Starts, OnSteps, Total, Drift, WholeSteps, Bag, CutOnArrival, Arriving, Values;
  }

  lemma RunHoldsElim(held: seq<TradeEvent>, groups: seq<seq<TradeEvent>>, p: int)
    requires Arriving(groups, p) && groups != [] && RunHolds(held, groups, p)
    ensures Concat(groups) != [] && OfPeriod(held, p) && AllParse(held) && |held| == |Concat(groups)|
    ensures var t0 := Earliest(Concat(groups)); NoEarlier(held, t0) && Starts(held, t0) && OnSteps(held, t0)
    ensures Total(Values(Stamp(), held)) == Total(CutOnArrival(groups, p)) - Drift(groups, p)
    ensures WholeSteps(groups, p) ==> Bag(Stamp(), held) == multiset(CutOnArrival(groups, p))
  {
    hide OfPeriod, AllParse, Earliest, NoEarlier, Starts, OnSteps, Total, Drift, WholeSteps, Bag, CutOnArrival, Arriving, Values;
  }

  lemma OneGroup(groups: seq<seq<TradeEvent>>, p: int)
    requires |groups| == 1 && Arriving(groups, p)
    ensures Concat(groups) == groups[0] != [] && CutOnArrival(groups, p) == Values(Cut(Earliest(groups[0])), groups[0])
    ensures OfPeriod(groups[0], p) && AllParse(groups[0]) && Drift(groups, p) == 0
    ensures Bag(Cut(Earliest(groups[0])), []) + Bag(Cut(Earliest(groups[0])), groups[0]) == Bag(Cut(Earliest(groups[0])), groups[0])
  {
    hide Earliest, Cut, OfPeriod, AllParse;
    assert groups[..0] == [] && Concat<TradeEvent>([]) == [] && Concat(groups) == [] + groups[0];
    assert CutOnArrival([], p) == [];
  }

  lemma ArrivingNone(p: int)
    ensures OfPeriod([], p) && AllParse([])
  {
  }

  lemma NextMergeHolds(before: seq<TradeEvent>, held: seq<TradeEvent>, groups: seq<seq<TradeEvent>>, p: int)
    requires |groups| > 1 && Arriving(groups, p) && RunHolds(before, groups[..|groups| - 1], p)
    requires Merged(before, groups[|groups| - 1], held)
    ensures RunHolds(held, groups, p)
  {
    hide *;
    var n := |groups| - 1;
    var init, group := groups[..n], groups[n];
    LastGroup(groups, p);
    RunHoldsElim(before, init, p);
    EarliestOfConcat(before, Concat(init), group);
    var t0, t1 := Earliest(Concat(init)), Earliest(Concat(groups));
    MergeCutsAll(before, group, held, p);
    OldStampsMove(before, t0, t1);
    StampsMoved(before, t0, t1);
    BagsTotal(Stamp(), Cut(t1), held, before, group);
    TotalConcat(CutOnArrival(init, p), Values(Cut(t1), group));
    if WholeSteps(groups, p) {
      UnmovedBag(before, t1);
      BagIsValues(Cut(t1), group);
      MultisetConcat(CutOnArrival(init, p), Values(Cut(t1), group));
    }
    RunHoldsIntro(held, groups, p);
  }

  lemma StampsMoved(before: seq<TradeEvent>, t0: int64, t1: int64)
    requires forall t :: t in before ==> Cut(t1)(t) == t.timestamp - Shift(t0, t1)
    ensures Total(Values(Cut(t1), before)) == Total(Values(Stamp(), before)) - |before| * Shift(t0, t1)
    ensures Shift(t0, t1) == 0 ==> forall t :: t in before ==> Cut(t1)(t) == t.timestamp
  {
    hide Total, Values, Cut, Shift;
    TotalMoves(Stamp(), Cut(t1), before, Shift(t0, t1));
  }

  lemma UnmovedBag(before: seq<TradeEvent>, t1: int64)
    requires forall t :: t in before ==> Cut(t1)(t) == t.timestamp
    ensures Bag(Stamp(), before) == Bag(Cut(t1), before)
  {
    hide Bag, Cut;
    SameBag(Stamp(), Cut(t1), before, before);
  }

  /** The recursive definitions, opened at the last group. */
  lemma LastGroup(groups: seq<seq<TradeEvent>>, p: int)
    requires |groups| > 1 && Arriving(groups, p)
    ensures var n := |groups| - 1;
            var init, group := groups[..n], groups[n];
            && init != [] && Arriving(init, p) && group != [] && OfPeriod(group, p) && AllParse(group)
            && Concat(init) != [] && Concat(groups) == Concat(init) + group
            && CutOnArrival(groups, p) == CutOnArrival(init, p) + Values(Cut(Earliest(Concat(groups))), group)
            && ShiftAt(groups, p, n) == Shift(Earliest(Concat(init)), Earliest(Concat(groups)))
            && Drift(groups, p) == Drift(init, p) + |Concat(init)| * Shift(Earliest(Concat(init)), Earliest(Concat(groups)))
            && (WholeSteps(groups, p) <==> WholeSteps(init, p) && ShiftAt(groups, p, n) == 0)
  {
    var n := |groups| - 1;
    ArrivingIsNotEmpty(groups[..n], p);
    WholeStepsPrefix(groups, p);
    hide Earliest, Shift, Cut, OfPeriod, AllParse, WholeSteps;
    assert groups[..n + 1] == groups;
  }

  lemma WholeStepsPrefix(groups: seq<seq<TradeEvent>>, p: int)
    requires |groups| > 1 && Arriving(groups, p)
    ensures WholeSteps(groups, p) <==> WholeSteps(groups[..|groups| - 1], p) && ShiftAt(groups, p, |groups| - 1) == 0
  {
    hide Shift, Earliest;
    var init := groups[..|groups| - 1];
    forall n | 0 < n < |init| ensures ShiftAt(init, p, n) == ShiftAt(groups, p, n) {
      assert init[..n] == groups[..n] && init[..n + 1] == groups[..n + 1];
    }
  }

  lemma {:induction false} EveryRunHolds(states: seq<seq<TradeEvent>>, groups: seq<seq<TradeEvent>>, p: int)
    requires MergeRun(states, groups) && Arriving(groups, p)
    ensures RunHolds(states[|groups|], groups, p)
  {
    hide Merged, RunHolds;
    if groups == [] {
      NothingHolds(p);
    } else {
      var n := |groups| - 1;
      EveryRunHolds(states[..n + 1], groups[..n], p);
      assert Merged(states[n], groups[n], states[n + 1]);
      if n == 0 {
        FirstMergeHolds(states[1], groups, p);
      } else {
        NextMergeHolds(states[n], states[n + 1], groups, p);
      }
    }
  }

  lemma NothingHolds(p: int)
    ensures RunHolds([], [], p)
  {
  }

  lemma {:induction false} DriftIsZeroIff(groups: seq<seq<TradeEvent>>, p: int)
    requires Arriving(groups, p)
    ensures Drift(groups, p) == 0 <==> WholeSteps(groups, p)
  {
    hide *;
    if |groups| > 1 {
      var n := |groups| - 1;
      ArrivingPart(groups, p, n);
      DriftIsZeroIff(groups[..n], p);
      LastGroup(groups, p);
      PositiveTimes(|Concat(groups[..n])|, ShiftAt(groups, p, n));
    } else {
      NoShift(groups, p);
    }
  }

  lemma NoShift(groups: seq<seq<TradeEvent>>, p: int)
    requires |groups| <= 1 && Arriving(groups, p)
    ensures Drift(groups, p) == 0 && WholeSteps(groups, p)
  {
  }

  lemma PositiveTimes(a: nat, b: nat)
    ensures a * b >= 0
    ensures a > 0 ==> (a * b == 0 <==> b == 0)
  {
  }

  /** After any number of merges the stamps are those of all arrivals, each cut exactly once, when it arrived,
      if and only if the grid only ever moved by whole steps; otherwise the stamps are too low by the drift. */
  lemma StampsAreCutOnceIff(states: seq<seq<TradeEvent>>, groups: seq<seq<TradeEvent>>, p: int)
    requires MergeRun(states, groups) && Arriving(groups, p)
    ensures Total(Values(Stamp(), states[|groups|])) == Total(CutOnArrival(groups, p)) - Drift(groups, p)
    ensures Bag(Stamp(), states[|groups|]) == multiset(CutOnArrival(groups, p)) <==> WholeSteps(groups, p)
  {
    EveryRunHolds(states, groups, p);
    DriftIsZeroIff(groups, p);
    hide Merged, Drift, WholeSteps, CutOnArrival;
    if Bag(Stamp(), states[|groups|]) == multiset(CutOnArrival(groups, p)) {
      BagIsValues(Stamp(), states[|groups|]);
      TotalOfPermutation(Values(Stamp(), states[|groups|]), CutOnArrival(groups, p));
    }
  }

  /** An input on which it fails: an arrival one unit older cuts a stamp again that one merge would have kept. */
  lemma EarlierArrivalCutsAgain(states: seq<seq<TradeEvent>>, once: seq<TradeEvent>)
    requires MergeRun(states, [[TradeAt(1_000_000), TradeAt(1_999_999)], [TradeAt(999_999)]])
    requires Merged([], [TradeAt(1_000_000), TradeAt(1_999_999), TradeAt(999_999)], once)
    ensures Bag(Stamp(), states[2]) == multiset{999_999, 999_999, 999_999}
    ensures Bag(Stamp(), once) == multiset{999_999, 1_999_999, 999_999}
  {
    hide MergeRun, Bag, Merged, OfPeriod, AllParse, NoEarlier, Starts, OnSteps, Cut, Stamp, Earliest, TradeAt, Shift;
    SampleRun(states);
    var a, b, c := TradeAt(1_000_000), TradeAt(1_999_999), TradeAt(999_999);
    SampleFacts();
    SampleBags();
    MergeCutsAll([], [a, b], states[1], 0);
    MergeCutsAll(states[1], [c], states[2], 0);
    MergeCutsAll([], [a, b, c], once, 0);
    AllAlike(states[1], 1_000_000);
    EarliestOfBoth(states[1], [c], 1_000_000, 999_999);
    OldStampsMove(states[1], 1_000_000, 999_999);
    TwoAlike(Cut(999_999), states[1], 999_999);
  }

  lemma SampleRun(states: seq<seq<TradeEvent>>)
    requires MergeRun(states, [[TradeAt(1_000_000), TradeAt(1_999_999)], [TradeAt(999_999)]])
    ensures |states| == 3 && Merged([], [TradeAt(1_000_000), TradeAt(1_999_999)], states[1])
    ensures Merged(states[1], [TradeAt(999_999)], states[2])
  {
    hide Merged, TradeAt;
    assert Merged(states[0], [[TradeAt(1_000_000), TradeAt(1_999_999)], [TradeAt(999_999)]][0], states[0 + 1]);
    assert Merged(states[1], [[TradeAt(1_000_000), TradeAt(1_999_999)], [TradeAt(999_999)]][1], states[1 + 1]);
  }

  lemma AllAlike(held: seq<TradeEvent>, timestamp: int)
    requires Bag(Stamp(), held) == multiset{timestamp, timestamp}
    ensures forall t :: t in held ==> t.timestamp == timestamp
  {
    forall t | t in held ensures t.timestamp == timestamp {
      BagMember(Stamp(), held, t.timestamp);
    }
  }

  lemma TwoAlike<T>(f: T -> int, held: seq<T>, value: int)
    requires |held| == 2 && forall t :: t in held ==> f(t) == value
    ensures Bag(f, held) == multiset{value, value}
  {
    hide Bag;
    assert held == [held[0], held[1]] && held[0] in held && held[1] in held;
    BagOfTwo(f, held[0], held[1]);
  }

  lemma SampleFacts()
    ensures var a, b, c := TradeAt(1_000_000), TradeAt(1_999_999), TradeAt(999_999);
            && OfPeriod([], 0) && AllParse([]) && OfPeriod([a, b], 0) && AllParse([a, b]) && OfPeriod([c], 0) && AllParse([c])
            && OfPeriod([a, b, c], 0) && AllParse([a, b, c]) && NoEarlier([c], 999_999) && Starts([c], 999_999)
            && Earliest([] + [a, b]) == 1_000_000 && Earliest([] + [a, b, c]) == 999_999 && Shift(1_000_000, 999_999) == 1
  {
    assert [TradeAt(999_999)][0] in [TradeAt(999_999)];
    var ab, abc := [] + [TradeAt(1_000_000), TradeAt(1_999_999)], [] + [TradeAt(1_000_000), TradeAt(1_999_999), TradeAt(999_999)];
    assert ab[0] in ab && abc[2] in abc;
    hide Earliest;
    EarliestIsUnique(ab, 1_000_000);
    EarliestIsUnique(abc, 999_999);
  }

  lemma SampleCuts()
    ensures Cut(1_000_000)(TradeAt(1_000_000)) == Cut(1_000_000)(TradeAt(1_999_999)) == 1_000_000
    ensures Cut(999_999)(TradeAt(1_000_000)) == Cut(999_999)(TradeAt(999_999)) == 999_999 && Cut(999_999)(TradeAt(1_999_999)) == 1_999_999
  {
  }

  lemma SampleBags()
    ensures var a, b, c := TradeAt(1_000_000), TradeAt(1_999_999), TradeAt(999_999);
            && Bag(Cut(1_000_000), []) == multiset{} == Bag(Cut(999_999), [])
            && Bag(Cut(1_000_000), [a, b]) == multiset{1_000_000, 1_000_000}
            && Bag(Cut(999_999), [c]) == multiset{999_999}
            && Bag(Cut(999_999), [a, b, c]) == multiset{999_999, 1_999_999, 999_999}
  {
    hide Bag, Cut, TradeAt;
    SampleCuts();
    BagOfOne(Cut(1_000_000), TradeAt(999_999));
    BagOfOne(Cut(999_999), TradeAt(999_999));
    BagOfTwo(Cut(1_000_000), TradeAt(1_000_000), TradeAt(1_999_999));
    BagOfThree(Cut(999_999), TradeAt(1_000_000), TradeAt(1_999_999), TradeAt(999_999));
  }
}
